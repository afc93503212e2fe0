# c2ng core components in Dafny

This project models eight small, self-contained components of the c2ng
planetary-game client. It proves properties about them with Dafny. Each
component is a pure functional model: immutable datatypes plus total
functions. Where a C++ method mutates an object, the model takes the old
state and returns the new one. Errors become `Result`/`Option` values.

| module | file | what it models |
|---|---|---|
| `Real48` | real48.dfy | The Turbo Pascal 6-byte "Real" stored in a 16-bit tag and a 32-bit payload. It covers exact decoding, normalising and clamping encoding, and the byte packing. |
| `Real48Vectors` | real48_vectors.dfy | The test vectors of the value loader: 40 simple values, their 40 negations and 30 random patterns. It also covers the three fixed encodings. |
| `ValueLoader` | value_loader.dfy | Loading of a value from a tag node and the auxiliary byte stream, and the saving of scalar values. It covers loading of a segment: headers first, then auxiliary data in record order. |
| `Closure` | closure.dfy | Partial application: bound arguments, the call through the base callable, the apparent dimensions, and cloning. |
| `MessageParser` | message_parser.dfy | Reading the message-template file, the `+n,`/`-n,`/`=n,` scope prefixes, output generation for a matching template, and the first-match rule. |
| `TeamSettings` | team_settings.dfy | Player-to-team assignment, team names, the viewpoint player, relations and their colours, and the header filtering of the team file. |
| `ResultFile` | result_file.dfy | Validation of a v3 result file's header: section addresses, presence and offsets, and Winplan version detection. |
| `SimShip` | sim_ship.dfy | The combat simulator's ship: defaults, the loadout a hull implies, ship-list matching, and implied abilities. |
| `SimpleTable` | simple_table.dfy | The table widget's cell ranges, the range setters, row and column metrics, and the automatic metric helpers. |
| `RichTextFunctions` | rich_text.dfy | The script functions RAdd, RMid, RString, RLen, RStyle and RLink on rich text, including the style-name table. |
| `Strings` | strings.dfy | Character helpers the components share: trimming, lower-casing, comma search and comma splitting, and decimal text. |
| `Wrappers` | wrappers.dfy | `Option` and `Result`. |

The value loader and the closure are modelled from their unit tests, because
their implementation files are not part of this model. For those two, the test
vectors and the test scenarios are the contract.

Calls into code outside these components become parameters:
- the keyword matcher `util::stringMatch`, `MessageTemplate::match`, integer parsing and the keyword-to-index tables of the message parser (an `Oracles` record, plus a matcher function);
- the IEEE single-precision decoding of the float tag (a function `u32 -> real`);
- the hull-function table and the race numbers of the host configuration (an `Environment`);
- the dimensions of a closure's base callable (a function `int -> int`);
- the 4-byte read at a file position in the result-file check (a function `int -> seq<int>`).

## Model

| member | source | states |
|---|---|---|
| Real48.Record | u/t_interpreter_vmio_valueloader.cpp:183-184 | Packing six bytes into a tag node puts the exponent in byte 0, and the record is negative exactly when bit 7 of byte 5 is set. |
| Real48.Split | u/t_interpreter_vmio_valueloader.cpp:183-184 | Splitting a tag node into bytes is the inverse of packing: packing the split bytes gives the node back. |
| Real48.SplitRecord | u/t_interpreter_vmio_valueloader.cpp:183-184 | Packing then splitting gives the original six bytes back, so the packing is a bijection. |
| Real48.Mantissa | u/t_interpreter_vmio_valueloader.cpp:45-47 | The mantissa is the 39 bits of bytes 1 to 5 without the sign bit, so it is below 2^39. |
| Real48.Compose | u/t_interpreter_vmio_valueloader.cpp:45-47 | Exponent, mantissa and sign can be set independently: a record built from three fields reads back each of them. |
| Real48.ComposeFields | u/t_interpreter_vmio_valueloader.cpp:45-47 | Every record is determined by its exponent, mantissa and sign. |
| Real48.MagnitudeInBinade | u/t_interpreter_vmio_valueloader.cpp:45-47 | A record with a non-zero exponent e decodes to (2^39 + m)·2^(e−129−39). That value lies in [2^(e−129), 2^(e−128)) and within the range the encoder accepts. |
| Real48.FlipSign | u/t_interpreter_vmio_valueloader.cpp:47 | Flipping the sign bit keeps exponent and mantissa and inverts the sign. |
| Real48.FlipSignNegates | u/t_interpreter_vmio_valueloader.cpp:47 | The most significant bit of the last byte is the sign: flipping it negates the decoded value. |
| Real48.Encode | u/t_interpreter_vmio_valueloader.cpp:214-243 | Magnitudes below 2^−128 encode as the zero record, and magnitudes from 2^127 up as the maximum record with the input's sign. In between, the record has a non-zero exponent, the input's sign, and the binade that holds the input. A zero exponent occurs only in the zero record. |
| Real48.EncodeDecode | u/t_interpreter_vmio_valueloader.cpp:199-206 | Re-encoding the decoded value of any record with a non-zero exponent gives exactly the same tag and payload. |
| Real48.ZeroExponentNormalises | u/t_interpreter_vmio_valueloader.cpp:130-132 | Exponent byte 0 decodes to exactly 0, whatever the other bytes hold, and re-encodes as the all-zero record. |
| Real48.DecodeEncode | u/t_interpreter_vmio_valueloader.cpp:236-243 | For a value in range, encoding keeps the sign and the binade. Decoding the result never gives a larger magnitude, so encoding truncates toward zero. |
| Real48Vectors.DecodeOne | u/t_interpreter_vmio_valueloader.cpp:50 | 0x81 with an all-zero payload decodes to 1. |
| Real48Vectors.DecodeSeven | u/t_interpreter_vmio_valueloader.cpp:56 | 0x83 with payload 0x60000000 decodes to 7. |
| Real48Vectors.DecodeHalf | u/t_interpreter_vmio_valueloader.cpp:75 | 0x80 with an all-zero payload decodes to 0.5. |
| Real48Vectors.DecodeTen | u/t_interpreter_vmio_valueloader.cpp:59 | 0x84 with payload 0x20000000 decodes to 10. |
| Real48Vectors.SevenVectorValues | u/t_interpreter_vmio_valueloader.cpp:56-96 | The table rows for 7 and −7 decode to exactly 7 and −7. |
| Real48Vectors.TablesHaveNoDenormals | u/t_interpreter_vmio_valueloader.cpp:48-162 | In every vector table, a zero exponent byte occurs only in the all-zero row. The pattern the writer would normalise away is absent. |
| Real48Vectors.VectorsRoundTrip | u/t_interpreter_vmio_valueloader.cpp:177-207 | Every listed pattern decodes to a value that re-encodes to the identical tag and payload. |
| Real48Vectors.RecordRoundTrip | u/t_interpreter_vmio_valueloader.cpp:199-206 | Any 6 bytes whose exponent is non-zero, or which are all zero, survive decode then encode unchanged. |
| Real48Vectors.ZeroRecordRoundTrip | u/t_interpreter_vmio_valueloader.cpp:49 | The all-zero record survives decode then encode unchanged. |
| Real48Vectors.VectorsMirror | u/t_interpreter_vmio_valueloader.cpp:49-128 | Both halves of the simple table hold 40 rows. Each negative row from the second on decodes to exactly the negation of its positive counterpart. |
| Real48Vectors.MirrorBytes | u/t_interpreter_vmio_valueloader.cpp:49-128 | Each negative row differs from its positive counterpart only in bit 7 of byte 5, which is clear in the positive row. |
| Real48Vectors.SignByteFlips | u/t_interpreter_vmio_valueloader.cpp:45-47 | Setting bit 7 of byte 5 flips exactly the sign of the packed record. |
| Real48Vectors.MaxPositiveValue | u/t_interpreter_vmio_valueloader.cpp:228-234 | The maximum record (tag 0xFFFF, payload 0x7FFFFFFF) decodes to 170141183460314489226776631181521715200. The same record with the sign bit decodes to its negation. |
| Real48Vectors.ClampBoundsVersusPowersOfTen | u/t_interpreter_vmio_valueloader.cpp:214-229 | 1e−100 lies below the smallest representable magnitude, and 1e+100 above the clamping bound. |
| Real48Vectors.EncodeTiny | u/t_interpreter_vmio_valueloader.cpp:214-221 | Every value of magnitude at most 1e−100 encodes as tag 0 and payload 0. |
| Real48Vectors.EncodeHuge | u/t_interpreter_vmio_valueloader.cpp:223-229 | Every value of at least 1e+100 encodes as tag 0xFFFF and payload 0x7FFFFFFF. |
| Real48Vectors.EncodeSeven | u/t_interpreter_vmio_valueloader.cpp:236-242 | 7.0 encodes as tag 0x0083 and payload 0x60000000. |
| ValueLoader.ToInt32 | u/t_interpreter_vmio_valueloader.cpp:253-256 | An integer payload is read as two's complement: it is congruent to the payload modulo 2^32, and negative exactly when bit 31 is set. |
| ValueLoader.FromInt32 | u/t_interpreter_vmio_valueloader.cpp:297-302 | Saving an integer gives a payload that loads back as the same integer. |
| ValueLoader.FromToInt32 | u/t_interpreter_vmio_valueloader.cpp:297-302 | Loading then saving an integer payload reproduces the payload. |
| ValueLoader.LoadValue | u/t_interpreter_vmio_valueloader.cpp:327-344 | A header loads exactly when its tag is known and, for strings, enough auxiliary bytes follow. The result is null exactly for the null tag. Only the two string tags consume auxiliary bytes, never more than are there. |
| ValueLoader.LoadValuePrefix | u/t_interpreter_vmio_valueloader.cpp:339-344 | A value depends only on the auxiliary bytes it reads: bytes appended after them change nothing. |
| ValueLoader.SaveScalar | u/t_interpreter_vmio_valueloader.cpp:289-295 | Integers save under the integer tag, booleans under the boolean tag with payload 0 or 1, and floats as Real48 records. |
| ValueLoader.LoadReal48 | u/t_interpreter_vmio_valueloader.cpp:186-192 | Any Real48 header loads as the float it decodes to and reads no auxiliary bytes. |
| ValueLoader.SaveLoadScalar | u/t_interpreter_vmio_valueloader.cpp:267-302 | Saving an integer or boolean then loading gives the same value of the same kind, with no auxiliary bytes. |
| ValueLoader.SaveLoadFloat | u/t_interpreter_vmio_valueloader.cpp:199-206 | Saving a float in range then loading gives the decoded re-encoding: the same sign and no larger magnitude. |
| ValueLoader.LoadSaveHeader | u/t_interpreter_vmio_valueloader.cpp:297-302 | Integer, boolean (0 or 1), Real48 and zero headers load successfully and save back to the identical tag and payload. |
| ValueLoader.SetSlot | u/t_interpreter_vmio_valueloader.cpp:429-434 | Storing into a slot sets that slot and leaves every other slot as it was, growing the segment as needed. |
| ValueLoader.ReadHeaders | u/t_interpreter_vmio_valueloader.cpp:327-337 | n headers are read from the first 6·n bytes. |
| ValueLoader.ReadHeadersBytes | u/t_interpreter_vmio_valueloader.cpp:327-337 | Header k is the packing of bytes 6k to 6k+5. |
| ValueLoader.LoadFrom | u/t_interpreter_vmio_valueloader.cpp:339-344 | Loading the headers in order yields one slot per header, with null exactly for null tags, and consumes no more auxiliary bytes than exist. |
| ValueLoader.Store | u/t_interpreter_vmio_valueloader.cpp:439-462 | Storing values from slot start sets exactly those slots, in order, and leaves all other slots untouched. |
| ValueLoader.Load | u/t_interpreter_vmio_valueloader.cpp:351-359 | Loading n records consumes at least the 6·n header bytes and no more than the input. It writes only slots start to start+n−1, which are null exactly where the header is null. |
| ValueLoader.LoadValueUsesAuxSize | u/t_interpreter_vmio_valueloader.cpp:327-344 | A record that loads consumes exactly the auxiliary bytes it occupies: the length byte and text of a non-empty short string, the payload's byte count for a long string, and nothing for any other tag. |
| ValueLoader.LoadFromSucceeds | u/t_interpreter_vmio_valueloader.cpp:327-344 | Loading the records succeeds exactly when each record loads from the auxiliary bytes that follow those of all records before it. |
| ValueLoader.LoadFromRecord | u/t_interpreter_vmio_valueloader.cpp:327-344 | In a successful load, the slot of record k holds the value that record k reads at its own offset, which lies after the auxiliary bytes of all earlier records. |
| ValueLoader.LoadFromConsumed | u/t_interpreter_vmio_valueloader.cpp:338-359 | A successful load consumes exactly the auxiliary bytes that all records occupy together. |
| ValueLoader.LoadContents | u/t_interpreter_vmio_valueloader.cpp:327-359 | Loading n records reads the n headers first and then the auxiliary data in record order. It succeeds exactly when the headers are there and every record loads from its offset. Slot start+k then holds record k's value, and 6·n plus all records' auxiliary bytes are consumed. |
| ValueLoader.LoadFromPrefix | u/t_interpreter_vmio_valueloader.cpp:339-344 | Bytes after the auxiliary data the records read do not change what is loaded or how much is consumed. |
| ValueLoader.LoadIgnoresTrailing | u/t_interpreter_vmio_valueloader.cpp:343-359 | Trailing bytes after the loaded records stay unread: appending to the input changes neither the segment nor the consumed count. |
| ValueLoader.WriteHeaders | u/t_interpreter_vmio_valueloader.cpp:327-337 | Serialised headers take six bytes each, record k holding the bytes of header k. |
| ValueLoader.ReadWrittenHeaders | u/t_interpreter_vmio_valueloader.cpp:327-337 | Reading serialised headers, whatever follows them, gives the headers back. |
| ValueLoader.LoadNineHeaders | u/t_interpreter_vmio_valueloader.cpp:361-410 | The nine test headers load as 0.0, 1029, null, "", true, "abcdefg", "XYZ", 5.0 and the float 3.0, consuming the 11 auxiliary bytes. |
| ValueLoader.LoadNineValues | u/t_interpreter_vmio_valueloader.cpp:322-416 | Loading the 68-byte test input into an empty segment consumes 65 bytes, fills slots 0 to 8 with the expected values and leaves slot 9 empty. |
| ValueLoader.LoadIntoMiddle | u/t_interpreter_vmio_valueloader.cpp:418-463 | Loading two records at slot 1 of [null, null, 42, 23] consumes 12 bytes and gives [null, 1029, null, 23]. The null record overwrites 42. |
| ValueLoader.MiddleLoaded | u/t_interpreter_vmio_valueloader.cpp:422-426 | The headers integer 1029 and null load as 1029 and null, reading nothing further. |
| Closure.NewCallable | u/t_interpreter_closure.cpp:75-79 | A new callable gets the next index and leaves the existing closures alone. |
| Closure.NewClosure | u/t_interpreter_closure.cpp:90-93 | A new closure refers to its base without copying it and starts with no bound arguments. No existing object changes. |
| Closure.CloneClosure | u/t_interpreter_closure.cpp:98-103 | A clone is a distinct closure with the same base and the same bound arguments. No callable is duplicated. |
| Closure.HeapStaysValid | u/t_interpreter_closure.cpp:90-103 | Creating callables, closures and clones keeps every closure's base pointing at an existing callable. |
| Closure.AddArgument | u/t_interpreter_closure.cpp:120-122 | Binding appends one argument after those already bound and keeps the base. |
| Closure.AddArgumentsFrom | u/t_interpreter_closure.cpp:137-144 | Binding from a segment appends its last n elements, in segment order. |
| Closure.AddArguments | u/t_interpreter_closure.cpp:120-122 | Binding a list appends it after the arguments already bound. |
| Closure.AddArgumentsFromIsSequential | u/t_interpreter_closure.cpp:137-155 | Binding the last n elements at once is the same as binding them one after the other. |
| Closure.Call | u/t_interpreter_closure.cpp:110-116 | A call goes to the base with the bound arguments first, then the call's arguments, and forwards the result flag. |
| Closure.CallAfterBinding | u/t_interpreter_closure.cpp:127-133 | Calling after binding xs is calling with xs placed before the arguments. |
| Closure.Dimension | u/t_interpreter_closure.cpp:120-125 | Dimension 0 is the base's count less the bound arguments, never negative, and exact while the base wants at least that many. |
| Closure.UnboundDimensions | u/t_interpreter_closure.cpp:90-96 | Without bound arguments, the closure reports the base's dimensions unchanged. |
| Closure.BindShiftsDimensions | u/t_interpreter_closure.cpp:120-147 | Each bound argument lowers dimension 0 by one (not below zero) and moves every other dimension k to the base's k + 1. |
| Closure.TestScenario | u/t_interpreter_closure.cpp:70-158 | The test's sequence: dimensions 7/5/35, then 5/15/35 after binding two, then 3/25/35 after binding the last two of three. The final call passes 3, "zz", 42, true and the call's arguments. |
| MessageParser.Wrap8 | game/parser/messageparser.cpp:34-53 | The 8-bit offset is the true value modulo 256, unchanged when it fits. |
| MessageParser.AccumulateExact | game/parser/messageparser.cpp:47-50 | Digits accumulated into the 8-bit offset give their decimal value whenever it is below 128. |
| MessageParser.DigitsEnd | game/parser/messageparser.cpp:47-50 | The digit scan stops at the first non-digit or the end of the line and passes only digits. |
| MessageParser.BlanksEnd | game/parser/messageparser.cpp:55-57 | The blank scan after the comma stops at the first non-space and passes only spaces. |
| MessageParser.ParseCheck | game/parser/messageparser.cpp:31-66 | An instruction keeps its base operation. With scope "any" the text is the whole line. Otherwise the scope comes from the first character, and the text is a proper suffix of the line. |
| MessageParser.ParsePrefixed | game/parser/messageparser.cpp:37-58 | Parsing sign, digits, comma, blanks and text gives back the sign's scope, the offset (negated for '-') and the text. This is the inverse of writing the prefix. |
| MessageParser.UnprefixedLine | game/parser/messageparser.cpp:33-36 | An empty line or one without a +, - or = prefix gives scope "any", offset 0 and the unchanged text. |
| MessageParser.PrefixWithoutComma | game/parser/messageparser.cpp:51-62 | A prefix whose digits are not followed by a comma backs out to scope "any", and the text stays whole. |
| MessageParser.OffsetWraps | game/parser/messageparser.cpp:48-53 | "+200,x" yields relative offset −56: the int8 accumulator wraps. |
| MessageParser.AccumulateTwoHundred | game/parser/messageparser.cpp:47-50 | The digits "200" accumulate to −56 in the int8 offset. |
| MessageParser.Delimiter | game/parser/messageparser.cpp:377 | The delimiter is the first '=' or ',' of the line, and none means the line holds neither. |
| MessageParser.Apply | game/parser/messageparser.cpp:424-454 | Assignments never change a template's object kind or name. |
| MessageParser.LoadLine | game/parser/messageparser.cpp:371-458 | After each line, the current template, if any, is the last one. A line never stores a template of unknown kind. |
| MessageParser.LoadFrom | game/parser/messageparser.cpp:371-459 | The same two invariants hold across any number of lines. |
| MessageParser.Load | game/parser/messageparser.cpp:362-461 | A loaded file has only templates of known kinds, and the current template is the last one. |
| MessageParser.IgnoredLineNoop | game/parser/messageparser.cpp:372-375 | Lines that are blank after trimming, or that start with ';', change nothing. |
| MessageParser.MissingDelimiterReported | game/parser/messageparser.cpp:377-379 | A line with neither '=' nor ',' is reported as missing a delimiter and otherwise skipped. |
| MessageParser.UnknownKindClearsCurrent | game/parser/messageparser.cpp:409-411 | A template line of unknown object kind is reported and leaves no current template; templates are unchanged. |
| MessageParser.OrphanAssignmentIgnored | game/parser/messageparser.cpp:409-420 | Without a current template, as after a line of unknown kind, assignments change no template. |
| MessageParser.TemplateLineAppends | game/parser/messageparser.cpp:380-415 | A template line of known kind appends one empty template of that kind, not continuing, and makes it current. Earlier templates stay. |
| MessageParser.AssignmentTouchesCurrentOnly | game/parser/messageparser.cpp:416-458 | An assignment line changes only the current template, never an object kind, and never the count. |
| MessageParser.LoadCountsTemplates | game/parser/messageparser.cpp:371-459 | The number of templates grows by exactly the number of template lines of known kind. |
| MessageParser.LoadTemplateCount | game/parser/messageparser.cpp:362-461 | A loaded file has one template per template line of known kind. |
| MessageParser.IdSlot | game/parser/messageparser.cpp:190 | The Id slot is the first variable named "ID", and none means no variable has that name. |
| MessageParser.NumberedFields | game/parser/messageparser.cpp:296-309 | Each emitted score is a non-empty field, numbered by its position counted from the first player number. |
| MessageParser.NumberedFieldsComplete | game/parser/messageparser.cpp:296-309 | Every non-empty field is emitted, with its player number. |
| MessageParser.ScorePairsNumberFields | game/parser/messageparser.cpp:296-309 | Splitting a SCORE value on commas numbers the fields from 1. Empty fields give no score but still advance the player number. |
| MessageParser.AddItem | game/parser/messageparser.cpp:290-340 | Processing one value keeps every existing item in place, changing at most the number of an integer item; unless the name is relative the existing items stay exactly and new ones are appended. A configuration record appends the key/value pair, SCORE appends one score per numbered field, a string or integer keyword appends that item, a relative name appends nothing, and any other name adds nothing. |
| MessageParser.Adjust | game/parser/messageparser.cpp:316-331 | A relative value changes only the first integer item of that index, by the delta, and no other item. |
| MessageParser.FirstIntItem | game/parser/messageparser.cpp:319-321 | The search finds the first integer item with the index, and none means there is none. |
| MessageParser.AddItems | game/parser/messageparser.cpp:281-288 | Processing the values keeps every existing item in place, changing at most the number of an integer item; when no processed slot holds a relative name, the existing items stay exactly and new ones are only appended. |
| MessageParser.MissingIdProducesNothing | game/parser/messageparser.cpp:184-206 | For ship, minefield, planet, base and ion-storm templates, a zero or negative Id produces no record. |
| MessageParser.MergeOrAppend | game/parser/messageparser.cpp:232-246 | The result lands in a last record of the same kind, Id and turn. It merges into the previous last record exactly when that record is mergeable and matches kind, Id and turn. Otherwise a new record is appended, and earlier records stay. |
| MessageParser.SkippedSlotsAddNothing | game/parser/messageparser.cpp:281-288 | Slots with an empty value, the Id slot, and slots named "_" or nothing are skipped: when all remaining slots are such, the items are unchanged. |
| MessageParser.LastSlotAddsItem | game/parser/messageparser.cpp:281-288 | A processed slot followed only by skipped slots contributes exactly what processing its one value does. |
| MessageParser.RelativeValueAdjusts | game/parser/messageparser.cpp:316-335 | A "+NAME" or "-NAME" value adds or subtracts its number from the first existing integer item of NAME's index and leaves every other item alone. Without such an item, nothing changes. |
| MessageParser.NoMatchNoInformation | game/parser/messageparser.cpp:477-487 | A message that no template matches adds no information. |
| MessageParser.StopsAtFinalMatch | game/parser/messageparser.cpp:478-486 | Templates after the first match without the continue flag are never consulted. |
| TeamSettings.Clear | game/teamsettings.cpp:51-67 | After clearing, every player 0 to MAX_PLAYERS is in the team of its own number. There are no names, and viewpoint, flags and passcode are 0. |
| TeamSettings.SetPlayerTeam | game/teamsettings.cpp:77-86 | Only the player's entry changes, and only for a valid player, which then is in the new team. The change is signalled exactly when the team read for the player differs from the new one, so an out-of-range player, read as team 0, signals for every non-zero team while nothing is stored. |
| TeamSettings.CountIsMemberSetSize | game/teamsettings.cpp:110-122 | The member count is the size of the set of players in the team. |
| TeamSettings.FirstEmptyTeam | game/teamsettings.cpp:98-105 | The search gives the lowest empty team number in range, and none means every team there has members. |
| TeamSettings.RemovePlayerTeam | game/teamsettings.cpp:88-108 | Removing a player keeps the settings well formed and changes nothing but that player's team. A signal is raised only when the player's team has more than one member; for a valid player it then sits in a different team, an out-of-range player changes nothing, and without the signal the settings are unchanged. |
| TeamSettings.RemoveAloneIsNoop | game/teamsettings.cpp:93 | A player whose team has at most one member stays put, with no change signalled. |
| TeamSettings.SharedTeamLeavesEmptyTeam | game/teamsettings.cpp:98-99 | When two players share a team, some team number from 1 to MAX_PLAYERS is empty (pigeonhole). |
| TeamSettings.RemoveLeavesPlayerAlone | game/teamsettings.cpp:88-108 | Removing a player from a shared team moves only that player, into a previously empty team numbered 1 to MAX_PLAYERS where it is then the only member. That team is the one with the player's own number when it is empty, and otherwise the lowest-numbered empty team. |
| TeamSettings.TeamName | game/teamsettings.cpp:124-134 | A team name is never empty. |
| TeamSettings.TeamNameFallback | game/teamsettings.cpp:124-153 | A team is named exactly when its stored name is returned. An unnamed team is called "Team n". |
| TeamSettings.SetTeamName | game/teamsettings.cpp:136-145 | Only that team's name changes, and only for a valid team, which then has the new name. The change is signalled exactly when the name read for the team differs, so an out-of-range team, read as unnamed, signals for every non-empty name while nothing is stored. |
| TeamSettings.AnyTeamsFromExists | game/teamsettings.cpp:155-166 | The scan from player i finds a player outside its own team, or a named team, exactly when one exists. |
| TeamSettings.HasAnyTeamsMeans | game/teamsettings.cpp:155-166 | Teams are configured exactly when some player 1 to MAX_PLAYERS is outside its own team or has a named team. Cleared settings have none. |
| TeamSettings.SetViewpointPlayer | game/teamsettings.cpp:171-179 | Only the viewpoint changes, and the change is signalled exactly when it differs. |
| TeamSettings.ColorsIdentifyRelations | game/teamsettings.cpp:209-222 | Green, yellow and red identify this player, allies and enemies one to one. |
| TeamSettings.AlliedMeansSameTeam | game/teamsettings.cpp:190-207 | Another player shows yellow exactly when the viewpoint's team is non-zero and shared. It never shows green, and after clearing it shows red. |
| TeamSettings.Load | game/teamsettings.cpp:224-241 | A missing file gives the cleared settings. A present file is rejected exactly when its signature differs from the team magic. |
| TeamSettings.LoadFiltersTeams | game/teamsettings.cpp:243-250 | Header team values 0 to MAX_PLAYERS are adopted for players 1 to 12. Others keep the player's own team, and players outside the header keep their defaults. |
| TeamSettings.LoadReadsNamesAndTransfer | game/teamsettings.cpp:252-270 | Teams 1 to 12 get the names the file gives, and a name that cannot be read leaves the team unnamed. A complete transfer block sets the send and receive settings of players 1 to 11 and the passcode. Without one, they stay 0. |
| ResultFile.HeaderSection | game/v3/resultfile.cpp:83-84 | Slot i of the address list is the section with number i. |
| ResultFile.Initial | game/v3/resultfile.cpp:65-69 | Loading starts from version −1 with every section offset 0. |
| ResultFile.SectionOffset | game/v3/resultfile.cpp:30-49 | An offset is reported exactly when the section is present, that is when its stored offset is positive. |
| ResultFile.SetSectionAddress | game/v3/resultfile.cpp:119-132 | An address is accepted exactly when 32 ≤ address < file size, and is then stored less one, changing nothing else. Otherwise it is an error naming the section. |
| ResultFile.SetSectionMakesPresent | game/v3/resultfile.cpp:125-132 | A recorded section is present at its address less one, and every other section is as before. |
| ResultFile.SetHeaderAddresses | game/v3/resultfile.cpp:82-85 | Recording the listed addresses keeps the version and a well-formed offset table. |
| ResultFile.HeaderAddressesChecked | game/v3/resultfile.cpp:82-85 | The listed addresses are recorded exactly when all are valid, each stored less one, leaving the other slots alone. |
| ResultFile.HeaderAddressesFirstError | game/v3/resultfile.cpp:82-85 | A failure names the first invalid listed address: all before it are valid. |
| ResultFile.SignatureVersion | game/v3/resultfile.cpp:102 | The version from the signature's two digits is between 0 and 99. |
| ResultFile.LoadHeader | game/v3/resultfile.cpp:61-117 | A zero-size file is rejected as not regular. A loaded header has a complete offset table. |
| ResultFile.LoadedHeader | game/v3/resultfile.cpp:61-117 | After loading, all eight listed addresses are valid and stored less one. The version is the signature's number exactly for a Winplan file, and −1 otherwise. Kore is present exactly for Winplan files, Leech exactly when also listed, and Skore exactly from version 1 on. |
| ResultFile.InvalidListedAddressRejects | game/v3/resultfile.cpp:82-85 | Any invalid listed address rejects the file. |
| ResultFile.SmallFileIsNotWinplan | game/v3/resultfile.cpp:96-100 | For a file smaller than the Winplan part, the unsigned range check passes every non-negative offset. Assuming the marker read at that offset comes back shorter than four bytes, which the requires states, the file is not taken for Winplan. |
| SimShip.NewShip | game/sim/ship.cpp:31-48 | A new ship has 10 crew, hull 0, mass 100, engine 1, passive aggressiveness and no weapons, ammunition or intercept. |
| SimShip.SetHullType | game/sim/ship.cpp:80-121 | The hull number is always the requested one, and the ship changes exactly when the number differs. |
| SimShip.SameHullIsNoop | game/sim/ship.cpp:84 | Choosing the current hull changes nothing. |
| SimShip.UnknownHullOnlyRenumbers | game/sim/ship.cpp:84-86 | Choosing a hull the ship list does not know changes only the hull number. |
| SimShip.KnownHullLoadout | game/sim/ship.cpp:86-118 | A known hull sets all its beams, crew and mass. The beam type becomes the last one exactly when the ship had none, the hull has beams and the list has beam types. Carriers get bays and full ammunition, torpedo ships all launchers of the last type and full ammunition, other hulls nothing. Owner, experience, engine, aggressiveness and intercept stay. |
| SimShip.DerivedLoadoutMatches | game/sim/ship.cpp:325-359 | A ship just given a known hull, or hull 0, matches the ship list. |
| SimShip.UnknownHullNeverMatches | game/sim/ship.cpp:337-340 | A non-custom ship whose hull the list lacks never matches. |
| SimShip.DefaultShipMatches | game/sim/ship.cpp:317-332 | A new ship is custom and matches every ship list. |
| SimShip.ImpliedAbilities | game/sim/ship.cpp:362-392 | Triple beam kill is implied exactly for race 5. Races 4 and 10 are planet-immune unless planets may attack them. The six explicit-only abilities are never implied. |
| SimpleTable.NewTable | ui/widgets/simpletable.cpp:99-110 | A new table has numColumns·numRows cells, one metric per row and column, and all metrics at the default. |
| SimpleTable.CellRange | ui/widgets/simpletable.cpp:115-123 | An in-range cell is the single position x + y·numColumns, and an out-of-range cell is empty. Every position lies in the table. |
| SimpleTable.RowRange | ui/widgets/simpletable.cpp:125-133 | Row y covers positions y·numColumns + i for each column i, and is empty out of range. Every position lies in the table. |
| SimpleTable.ColumnRange | ui/widgets/simpletable.cpp:135-143 | Column x covers positions x + i·numColumns for each row i, and is empty out of range. Every position lies in the table. |
| SimpleTable.Subrange | ui/widgets/simpletable.cpp:84-90 | A subrange clamps its start and count to the parent: its i-th cell is the parent's (min(start, count) + i)-th. |
| SimpleTable.SubrangeInParent | ui/widgets/simpletable.cpp:84-90 | A subrange only covers cells of its parent, so it stays inside any table the parent fits. |
| SimpleTable.Apply | ui/widgets/simpletable.cpp:10-82 | Each range setter sets only its own field of a cell: text, font, both alignments, colour or extra columns. Every other field keeps its value. |
| SimpleTable.ApplyIdempotent | ui/widgets/simpletable.cpp:10-82 | Setting the same attribute twice is the same as setting it once. |
| SimpleTable.ApplyToRange | ui/widgets/simpletable.cpp:10-23 | Exactly the covered cells get the new attribute. A redraw is requested exactly when some cell changed, and a metrics update when also the attribute affects size. |
| SimpleTable.SetRange | ui/widgets/simpletable.cpp:10-82 | Only the covered cells change, and nothing but the cells. Without a redraw request the table is unchanged. |
| SimpleTable.GetMetric | ui/widgets/simpletable.cpp:399-407 | An index out of range reads the default metric. |
| SimpleTable.SetSize | ui/widgets/simpletable.cpp:145-153 | Setting a size makes that metric fixed with the new size and keeps its padding. Out of range, nothing changes. |
| SimpleTable.ClearSize | ui/widgets/simpletable.cpp:155-164 | Clearing makes that metric automatic with size 0 and keeps its padding. Out of range, nothing changes. |
| SimpleTable.SetPadding | ui/widgets/simpletable.cpp:166-173 | Setting padding changes only that metric's padding. Out of range, nothing changes. |
| SimpleTable.SetThenGet | ui/widgets/simpletable.cpp:145-203 | Each setter is read back at its index, and every other index reads as before. |
| SimpleTable.SetRowHeight | ui/widgets/simpletable.cpp:145-153 | Setting a row height keeps the table well formed and requests only a redraw. |
| SimpleTable.ClearRowHeight | ui/widgets/simpletable.cpp:155-164 | Clearing a row height requests a metrics update and a redraw. |
| SimpleTable.SetRowPadding | ui/widgets/simpletable.cpp:166-173 | Row padding requests only a redraw. |
| SimpleTable.SetColumnWidth | ui/widgets/simpletable.cpp:175-183 | Setting a column width requests only a redraw. |
| SimpleTable.ClearColumnWidth | ui/widgets/simpletable.cpp:185-194 | Clearing a column width requests a metrics update and a redraw. |
| SimpleTable.SetColumnPadding | ui/widgets/simpletable.cpp:196-203 | Column padding requests only a redraw. |
| SimpleTable.MetricSettersAreSeparate | ui/widgets/simpletable.cpp:145-203 | Row setters touch only row metrics, and column setters only column metrics. |
| SimpleTable.ResetMetric | ui/widgets/simpletable.cpp:366-374 | Resetting zeroes the size of each automatic metric and leaves fixed ones alone. |
| SimpleTable.UpdateAutoMetric | ui/widgets/simpletable.cpp:376-386 | An update keeps the number of metrics. |
| SimpleTable.UpdateAutoMetricRaises | ui/widgets/simpletable.cpp:376-386 | Only an automatic metric in range changes, and its size rises to the value if larger. No size ever shrinks, and repeating the update changes nothing. |
| SimpleTable.SumMetric | ui/widgets/simpletable.cpp:388-397 | The loop computes the total of size plus padding over all entries. |
| SimpleTable.UpdateAutoMetricGrowsTotal | ui/widgets/simpletable.cpp:376-397 | The auto-metric update never lowers the total extent. |
| RichTextFunctions.Concat | game/interface/richtextfunctions.cpp:156 | Appending rich text adds the lengths and the attribute counts, and keeps attributes within the text. |
| RichTextFunctions.ConcatEmpty | game/interface/richtextfunctions.cpp:150-157 | Empty text is the identity of appending, so the loop may start from it. |
| RichTextFunctions.ConcatAssociative | game/interface/richtextfunctions.cpp:150-157 | Appending is associative, so the left-to-right loop equals any grouping. |
| RichTextFunctions.WithAttribute | game/interface/richtextfunctions.cpp:92-100 | A new attribute keeps the text and existing attributes and adds one attribute covering the whole text. |
| RichTextFunctions.Substr | game/interface/richtextfunctions.cpp:200 | A substring of valid rich text is valid. |
| RichTextFunctions.SubstrClipsSpans | game/interface/richtextfunctions.cpp:200 | Every attribute survives a substring and covers exactly those characters of the cut that it covered before. An attribute wholly outside the cut covers nothing. |
| RichTextFunctions.SubstrWhole | game/interface/richtextfunctions.cpp:200 | The substring from 0 of at least the whole length is the text itself. |
| RichTextFunctions.CheckRichArg | game/interface/richtextfunctions.cpp:109-123 | Null gives nothing. Rich text is taken as it is, and any other value as its text form without attributes. |
| RichTextFunctions.CheckStringArg | game/interface/richtextfunctions.cpp:275 | A string argument gives its text and null gives nothing. Any other value is a type error. |
| RichTextFunctions.CheckIntegerArg | game/interface/richtextfunctions.cpp:184-189 | An integer in range gives its value and null gives nothing. An integer out of range is a range error. |
| RichTextFunctions.AddAllMeaning | game/interface/richtextfunctions.cpp:148-159 | Appending all arguments is null exactly when one is null. Otherwise the text is the arguments' texts in order, and valid arguments give valid rich text. |
| RichTextFunctions.RAddMeaning | game/interface/richtextfunctions.cpp:136-160 | RAdd is null exactly when an argument is null, and otherwise holds the arguments' texts in order. No arguments give empty text, and the single-argument cast agrees with appending. |
| RichTextFunctions.AddAllSplits | game/interface/richtextfunctions.cpp:150-157 | Appending the arguments of two lists is appending the two results. |
| RichTextFunctions.AddTwo | game/interface/richtextfunctions.cpp:148-158 | Two non-null arguments give their converted texts appended. |
| RichTextFunctions.KnownStyleNames | game/interface/richtextfunctions.cpp:37-68 | The table knows exactly the 20 listed names. |
| RichTextFunctions.BoldAliases | game/interface/richtextfunctions.cpp:39-52 | b, bold and em all mean Bold. "italic" and the upper-case "Bold" are not in the table. |
| RichTextFunctions.OtherAliases | game/interface/richtextfunctions.cpp:38-65 | tt and fixed mean Fixed, kbd and key mean Key, and u and underline mean Underline. The empty name and "none" add nothing. |
| RichTextFunctions.ColorNames | game/interface/richtextfunctions.cpp:42-67 | dim is the faded colour, and static, red and yellow are the colours of those names. |
| RichTextFunctions.Normalize | game/interface/richtextfunctions.cpp:72 | Normalising never lengthens a name. |
| RichTextFunctions.ProcessStyle | game/interface/richtextfunctions.cpp:70-106 | Failure is always "Invalid style". Success keeps the text and the existing attributes and adds at most one, so valid text stays valid. |
| RichTextFunctions.ProcessStyleMeaning | game/interface/richtextfunctions.cpp:70-89 | A style fails exactly when its lower-cased, trimmed name is not in the table. Case does not matter, and "" and "none" return the text unchanged. |
| RichTextFunctions.ProcessStyleIgnoresCaseAndBlanks | game/interface/richtextfunctions.cpp:72-100 | " Bold " and "bold" both add exactly the Bold attribute. |
| RichTextFunctions.ProcessStyleMeaningAt | game/interface/richtextfunctions.cpp:87-100 | "bold" adds exactly a Bold attribute and "red" exactly a red colour, over the whole text. |
| RichTextFunctions.ApplyStylesSplits | game/interface/richtextfunctions.cpp:287-292 | The comma loop applies the comma-separated names left to right, including the empty field after a trailing comma. |
| RichTextFunctions.ApplyAllFails | game/interface/richtextfunctions.cpp:287-292 | Applying a list of names fails, with "Invalid style", exactly when one of them is unknown. Success keeps the text. |
| RichTextFunctions.RStyleNull | game/interface/richtextfunctions.cpp:268-284 | A non-string style is a type error. A null style, or a null content argument, gives null. |
| RichTextFunctions.RStyleUnfolds | game/interface/richtextfunctions.cpp:268-293 | RStyle applies the style loop to the concatenated content and reports its error. |
| RichTextFunctions.RStyleApplies | game/interface/richtextfunctions.cpp:268-293 | With a string style and no null content, RStyle fails exactly when some comma-separated name is unknown. Otherwise it holds the content's texts in order. |
| RichTextFunctions.InnerExample | game/interface/richtextfunctions.cpp:255-258 | RStyle("bold", "great") is "great" with Bold over all five characters. |
| RichTextFunctions.StyleExample | game/interface/richtextfunctions.cpp:255-258 | RStyle("red", "This is ", RStyle("bold", "great")) is "This is great", with Bold over characters 8 to 13 and red over the whole. |
| RichTextFunctions.RLinkNull | game/interface/richtextfunctions.cpp:307-322 | A non-string target is a type error. A null target, or a null content argument, gives null. |
| RichTextFunctions.RLinkApplies | game/interface/richtextfunctions.cpp:307-328 | RLink gives the concatenated content with exactly one link attribute added over the whole text. |
| RichTextFunctions.Mid | game/interface/richtextfunctions.cpp:191-201 | The substring of valid rich text is valid. |
| RichTextFunctions.MidText | game/interface/richtextfunctions.cpp:184-201 | The text of RMid is the characters from position start (counting from 1, with 0 treated as 1) for length characters, clamped to the end. A start beyond the end gives empty text. |
| RichTextFunctions.MidWhole | game/interface/richtextfunctions.cpp:184-201 | From 1 with the omitted length, RMid returns the whole text with its attributes. |
| RichTextFunctions.MidAfterConcat | game/interface/richtextfunctions.cpp:191-201 | The rest after the first part of an appended text is the second part. |
| RichTextFunctions.RMidArguments | game/interface/richtextfunctions.cpp:175-190 | A null string or start gives null. An omitted or null length means "the rest". A negative start or length is a range error. |
| RichTextFunctions.StringAndLength | game/interface/richtextfunctions.cpp:214-249 | RString and RLen take exactly one argument, and null gives null. Otherwise RString is the text without attributes, and RLen its length. |
| Strings.Trim | game/parser/messageparser.cpp:372 | Trimming never lengthens the text and leaves no blank at either end. |
| Strings.TrimCutsBlanks | game/parser/messageparser.cpp:372 | The trimmed text is a contiguous slice of the input, and only blanks lie outside it. |
| Strings.LowerChar | game/interface/richtextfunctions.cpp:72 | Upper-case ASCII letters become lower-case letters, and every other character stays. |
| Strings.LowerCase | game/interface/richtextfunctions.cpp:72 | Lower-casing maps each character on its own and keeps the length. |
| Strings.NatTextValue | game/teamsettings.cpp:131 | The decimal text of a natural number is digits only, with no leading zero, and reads back as the number. |
| Strings.IntTextValue | game/teamsettings.cpp:131 | The decimal text of an integer starts with '-' exactly when it is negative. The rest is the magnitude's digits without leading zeros. |
| Strings.FirstComma | game/interface/richtextfunctions.cpp:288 | The search finds the first comma, and none exactly when the text has no comma. |
| Strings.Split | game/parser/messageparser.cpp:300-308 | Splitting on commas always gives at least one field. |
| Strings.SplitCommaFree | game/parser/messageparser.cpp:300-308 | No field of the split contains a comma. |
| Strings.SplitJoins | game/interface/richtextfunctions.cpp:287-292 | Joining the comma-split fields with commas gives the original text back. |
| Strings.JoinSplits | game/parser/messageparser.cpp:296-309 | Comma-free fields joined with commas split back into the same fields. |

## Left out

- Text is a sequence of characters. The UTF-8 conversion between character and byte positions in RMid and RLen is not modelled. So the `nStart > size` guard of RMid never fires in the model, and RLen counts characters, where the source counts bytes.
- RXml: it needs the XML reader and the rich-text parser, which are not part of this model.
- The rich-text class `util::rich::Text` is not part of this model. Appending shifts the second text's attributes, a new attribute covers the whole text, and a substring clips attributes to the cut.
- RichTextFunctions.Substr: an attribute whose span lies wholly outside the cut is kept as an empty span at the cut's edge rather than dropped. So RMid past the end gives an empty text that still lists those empty spans. How the text class treats such attributes is not part of this model, and an empty span covers no character.
- `interpreter::toString` of non-string values is taken as a given text (`OtherValue`); integers show as their decimal form.
- RichTextFunctions.CheckStringArg and RichTextFunctions.CheckIntegerArg: the argument checkers are not part of this model. A non-string style or link target, or a non-integer position, is taken as a type error, and booleans and floats are not accepted as integers.
- Strings.Trim: the blank characters are taken as space, tab, carriage return and line feed; the trimming helper is not part of this model.
- Strings.LowerCase: only ASCII letters are lower-cased.
- The keyword matcher, `MessageTemplate::match`, integer parsing, the BIgid conversion and the keyword-to-index tables of the message parser are parameters.
- `checkTemplate` only logs two warnings. It needs a template's variable, wildcard and restriction counts from `MessageTemplate`, which is not part of this model. Other log messages of the parser are also left out, except the load diagnostics.
- The Alliance branch of output generation is a FIXME in the source and produces a record without items. The model does the same.
- MessageParser.AddItem: adding a value to a record is modelled as appending an item. `MessageInformation` is not part of this model, so any replacing of an existing value of the same index is not modelled.
- MessageParser.RelativeValueAdjusts: the int32 sum of a relative value and the SCORE conversion are unbounded integers; 32-bit overflow is not modelled.
- An Id slot beyond the produced values is read as Id 0.
- TeamSettings.SetPlayerTeam: an out-of-range player reads as team 0 and is not stored; the signal is still raised when the team is non-zero. The bounded array class is not part of this model.
- TeamSettings.SetTeamName: an out-of-range team reads as unnamed and its name is not stored; the signal is still raised when the name is non-empty.
- MAX_PLAYERS is taken as 31; its header is not part of this model.
- The `Metric` default is taken as size 0, padding 0, automatic; its header is not part of this model.
- SimpleTable.SumMetric: the C++ `int` sum is an unbounded integer here; overflow of the total extent is not modelled.
- `SimpleTable::draw`, `updateMetrics` (font metrics) and the state and position change handlers are left out as rendering.
- TeamSettings `save`, and the Pascal-string and transfer-setting reads of `load`, are file I/O. The model takes the file's decoded header, names and transfer block as input, and a missing file as `None`.
- ResultFile's reading of the header and of the marker is file I/O. The header fields and the 4-byte read are inputs. The section numbering is taken as the order of the header's address list, followed by Kore, Leech and Skore.
- The simulator's aggressiveness codes live in a header that is not part of this model, so the model uses named values. Owner and experience level come from the simulator object base class and are inputs.
- The hull-function engine (`getPlayersThatCan`) and the configuration's race numbers are a parameter of type `Environment`.
- Closure.Dimension: dimension 0 is floored at 0 when more arguments are bound than the base callable takes. The closure's implementation is not part of this model, and the test never reaches that case.
- Real48.Encode: the encoder is not part of this model. It is modelled as truncation toward zero of the mantissa, with clamping below 2^−128 and from 2^127. The tests fix only the three listed encodings and the round trip of the vectors.
- Real48Vectors.MaxPositiveValue: the maximum record decodes to the finite value 2^127 − 2^87, not to infinity. Both the decoding formula and the commented-out test expectation give that value.
- The IEEE single-precision float tag and the decimal `sprintf` comparison of the tests are left out: the float tag's decoding is a parameter, and values are compared exactly.
- ValueLoader.LoadValue: the loader is not part of this model. The tags are taken from the test data's comments. Tag 0 and any non-zero exponent byte are Real48, and other tags are errors.
- ValueLoader.SaveScalar: string saving writes auxiliary data and is not modelled.
- The interpreter's VM, scheduler and bytecode serialisation are not part of this model.

