# A verified model of the JSON library

The repository vendors RapidJSON under `modules/rapidjson/rapidjson`; its own sources are a client, a
service and network plumbing around it. This project models the library's hard core and proves what it
is for, over all inputs.

- **Reader** (`Grammar`, `Pushdown`, `Refusals`, `Reader`, `NumberProperties`). `Grammar` says what recursive descent
  does with a text: events, error code, offset. The class `Reader.GenericReader` holds both parsers as
  the source has them, over a mutable stream, one shared stack and a parse result. The iterative parser
  is proved against the recursive definition through `Pushdown.Resume`, which says what recursive descent
  still has to do when the loop is in a given state with a given stack of frames.
- **UTF-8** (`Utf8`). The codec branch by branch, and the characterisation of the strings it accepts.
- **Strings** (`Escaping`, `Insitu`). Writing literals, reading them back, and decoding them in place.
- **Writers and document** (`Writer`, `PrettyWriter`, `Printing`, `Dom`, `Document`, `RoundTrip`,
  `ParsedDocument`, `EventTrees`). Two printers with a level stack, the value stack that builds a tree from events, and
  the round trip through text.
- **Members map** (`MembersMap`). The ordered index kept beside the member array.
- **JSON Pointer** (`PointerText`, `Pointer`, `PointerAccess`). The two textual forms, the parser with its
  buffers, and the laws of get, create, set and erase.
- **Schema** (`Schema`, `SchemaCompiler`, `SchemaKeywords`, `Validator`, `StreamedValidity`, `SchemaValidator`,
  `DocumentPath`, `ValidatedReading`, `Hasher`). The recursive meaning of the keywords, the streaming validator with its
  parallel sub-validators, the path it keeps, and the hash of a value.
- **Pool allocator** (`Allocator`). Chunks of bytes, the blocks cut from them, and whole runs of requests that
  behave as separate cells.
- `Bytes`, `Words`, `Wrappers`, `Numerals`, `Sax` and `Streams` hold what the others share.

Handlers are modelled by `Sax.Handler`: it records the events it is sent and answers each by an arbitrary
predicate of all of them so far. A statement that names no particular predicate holds for every handler.

`dafny verify dfyconfig.toml` checks everything.

## What is not as one might expect

The model follows the code where the obvious claim is false. The exact condition is proved in each case.

- Integers compare equal when their 64-bit patterns do, so -1 equals 2^64-1
  (`Dom.IntegerEqualIsEquality`, `Dom.MinusOneEqualsMax`).
- The overflow check of a pointer's array index misses some wraps: 4294967296 is noticed, 5000000000 becomes
  705032704 (`PointerText.IndexOfNumeral`, `PointerText.FirstWrap`, `PointerText.WrapNotSeen`). And 4294967295
  fits 32 bits but stands for no index (`PointerText.IndexIsNumber`).
- Erasing by pointer reads the last name up to its first NUL (`PointerAccess.EraseLaw`,
  `PointerAccess.EraseCutsName`).
- What is set at `-` cannot be got there (`PointerAccess.SetLaw`, `PointerAccess.AppendedIsNotGot`).
- A name that is only required, or only depended on, is a known property (`SchemaCompiler.KnownIsAllowed`).
- A required property whose schema has a default string is never missed
  (`StreamedValidity.DefaultExempts`, `StreamedValidity.AbsentYetAccepted`).
- The guards of the exponent scan protect an `int` only up to 214748055 fraction digits
  (`NumberProperties.ExponentScanStaysInInt`, `NumberProperties.LongFractionOverflows`); which number texts
  leave it is said exactly by `NumberProperties.ExponentInIntIff`.
- Checking the encoding of a string that ends inside a sequence goes on behind the terminator, and in place it
  writes there (`Insitu.LeavesAtTheEnd`, `Insitu.AnnouncedPastTheEnd`).
- The parsers disagree on a root that starts with punctuation, and on the offset of a bracket event that
  the handler refuses: recursive descent stands one unit behind the bracket, unless it closes behind a
  trailing comma (`Reader.ParseBothWays`, `Refusals.DocumentStopsApart`, `Refusals.RefusedAtOnce`,
  `Refusals.RefusedBehindComma`).
- Numbers kept as text come back as strings, since the document stores `RawNumber` as a string and the writer
  quotes it: the value printed is the value read exactly if there is none (`RoundTrip.PrintThenParse`,
  `Document.SpelledIsSame`).
- A spelled-out NaN or infinity may be followed by a fraction or an exponent, which then counts from zero
  (`NumberProperties.SpelledCounts`, `NumberProperties.NaNWithFraction`).

## Model

| member | source | states |
|---|---|---|
| `Reader.ParseBothWays` | modules/rapidjson/rapidjson/reader.h:558-590 | the two parsers compared on every text, flag set and handler: same events, same error code, same offset; the only exceptions are a root starting with `]`, `}`, `,` or `:` (ValueInvalid against DocumentEmpty, both at the root and without events) and a bracket event that the handler refuses: there the iterative offset is one less, that of the bracket itself, unless the bracket closes right behind a comma, and then they are equal; this holds in both directions, for every combination of flags |
| `Refusals.DocumentStopsApart` | modules/rapidjson/rapidjson/reader.h:730-856 | recursive descent reports a refused bracket event one unit behind the bracket, and at the bracket exactly if it closes behind a trailing comma, where a comma is a token and not just a unit (one inside a comment does not count); no other error is moved |
| `Refusals.RefusedAtOnce` | modules/rapidjson/rapidjson/reader.h:811-813 | an instance: `[` with a handler that refuses everything stops recursive descent at offset 1, one behind the bracket |
| `Refusals.RefusedBehindComma` | modules/rapidjson/rapidjson/reader.h:843-849 | an instance behind a trailing comma: `["",]` with the end of the array refused stops at offset 4, at the bracket |
| `Reader.GenericReader.Parse` | modules/rapidjson/rapidjson/reader.h:558-590 | recursive descent with its mutable stream, stack and parse result reaches exactly the outcome of the grammar: result, cursor, events published, and an empty stack at the end |
| `Reader.GenericReader.IterativeParse` | modules/rapidjson/rapidjson/reader.h:2189-2222 | the table-driven loop reaches the outcome defined by the recursive grammar, apart from the two exceptions, with an empty stack at the end |
| `Reader.GenericReader.IterativeStep` | modules/rapidjson/rapidjson/reader.h:2196-2215 | one round of the loop: while it runs there is no error, the cursor moves, the shared stack is exactly one (restore state, count) pair per open container, and recursive descent would finish the same way from here; when it stops the outcome is final, and an error is never overwritten |
| `Reader.GenericReader.Transit` | modules/rapidjson/rapidjson/reader.h:2009-2158 | a transition refines the recursion: either the table has none and nothing is touched, or what recursive descent would do from the source state equals what it does from the new state with the new frames; strings and number text pushed in between are gone again |
| `Reader.GenericReader.HandleError` | modules/rapidjson/rapidjson/reader.h:2160-2179 | an error already set is kept; otherwise the state decides the code, at the cursor |
| `Pushdown.ResumeAtValue` | modules/rapidjson/rapidjson/reader.h:1842-2003 | where the table expects a value, the run that remains is: parse one value recursively, then go on in the state that follows a value |
| `Pushdown.ResumeAtOpen` | modules/rapidjson/rapidjson/reader.h:2016-2041 | a bracket pushes the frame that leads back to the state after the value, with count 0; the state restored is Start, Element or MemberValue |
| `Pushdown.ResumeAtClose` | modules/rapidjson/rapidjson/reader.h:2078-2136 | a closing bracket completes the innermost container as one value of the container around it, with the count of its members or elements, also after a trailing comma |
| `Pushdown.ResumeAtComma` | modules/rapidjson/rapidjson/reader.h:2071-2076 | a comma counts the value before it and expects the next one |
| `Pushdown.TrailingComma` | modules/rapidjson/rapidjson/reader.h:2080-2114 | without the trailing-comma flag a bracket after a comma is the error that recursive descent reports |
| `Pushdown.Rejects` | modules/rapidjson/rapidjson/reader.h:2160-2179 | where the table has no transition the error of the state is the one recursive descent ends with, at the same offset |
| `Pushdown.StartsAtOnce` | modules/rapidjson/rapidjson/reader.h:2189-2222 | a document that parses and does not start with punctuation has one meaning for both algorithms |
| `Reader.GenericReader.ParseStringToStream` | modules/rapidjson/rapidjson/reader.h:990-1068 | decoding a literal onto the shared stack gives exactly the decoded text and a NUL above what was there, or the code and offset of the error |
| `Reader.GenericReader.ParseUnicodeEscape` | modules/rapidjson/rapidjson/reader.h:1022-1045 | an escape, or a surrogate pair of them, becomes the UTF-8 encoding of its code point; lone surrogates and bad digits are errors at the backslash |
| `Reader.GenericReader.ParseNumber` | modules/rapidjson/rapidjson/reader.h:1467-1746 | the event of a number and the rest of the state after it, for every text and flag set |
| `Reader.GenericReader.ParseNonzero` | modules/rapidjson/rapidjson/reader.h:1493-1580 | accumulation in 32 bits, then in 64, then as a double: the locals hold the exact integer of the whole digit run, in the narrowest width, and the double is used exactly when no integer type of that sign fits |
| `Reader.GenericReader.AccumulateDigits` | modules/rapidjson/rapidjson/reader.h:1496-1573 | the accumulator is the exact value of the digits read and never exceeds `limit * 10 + last`, so it cannot wrap; it stops exactly when one more digit would exceed that |
| `Reader.GenericReader.NumberEvent` | modules/rapidjson/rapidjson/reader.h:1680-1743 | Uint below 2^32, Uint64 below 2^64, Int down to -2^31, Int64 down to -2^63, a double only beyond or with a fraction or exponent, or NumberTooBig |
| `Reader.GenericReader.Negated` | modules/rapidjson/rapidjson/reader.h:1730-1741 | two's complement negation of a magnitude of at most half the modulus is the negative integer |
| `Reader.GenericReader.ParseExponentDigits` | modules/rapidjson/rapidjson/reader.h:1632-1678 | the exponent scanned equals the capped exponent, or the number is too big |
| `NumberProperties.SignificandDenotesDigits` | modules/rapidjson/rapidjson/reader.h:1582-1628 | significand and power of ten denote the digits as written; digits are dropped only behind the seventeenth and only above 2^53 |
| `NumberProperties.ExponentScanStaysInInt` | modules/rapidjson/rapidjson/reader.h:1645-1711 | for every number text with at most 214748055 fraction digits the exponent scan, guarded by what its own fraction leaves, stays inside a 32-bit int for both signs, and so does the power of ten handed to the conversion |
| `NumberProperties.LongFractionOverflows` | modules/rapidjson/rapidjson/reader.h:1664-1671 | the bound is sharp: `0.` with k zeros and the exponent 2147483649 is a number text, and its scan stays inside an int exactly if k is at most 214748055 |
| `NumberProperties.ExponentInIntIff` | modules/rapidjson/rapidjson/reader.h:1664-1700 | for every number text: the scan leaves a 32-bit int exactly if the exponent is positive and its shortest digit prefix that is no int, cut by its last digit, is at most 308 plus the fraction digits absorbed |
| `NumberProperties.SpelledCounts` | modules/rapidjson/rapidjson/reader.h:1710-1728 | a spelled-out NaN or infinity is published exactly if no fraction and no exponent follows; otherwise the number is read as if it began with zero |
| `NumberProperties.NaNWithFraction` | modules/rapidjson/rapidjson/reader.h:1710-1728 | an instance: `NaN.5` is read as five tenths |
| `Utf8.DecodeAllOfEncodeAll` | modules/rapidjson/rapidjson/encodings.h:101-177 | decoding the concatenated encodings of any list of scalar values gives the list back |
| `Utf8.EncodeAllOfDecodeAll` | modules/rapidjson/rapidjson/encodings.h:101-177 | a byte string that decodes completely is the concatenation of the encodings of what it decodes to, all of them scalar values |
| `Utf8.WellFormedIffEncoding` | modules/rapidjson/rapidjson/encodings.h:101-177 | a byte string decodes to a list exactly when it is the encoding of that list of scalar values: no overlong forms, no surrogates, nothing above 10FFFF |
| `Utf8.Decode` | modules/rapidjson/rapidjson/encodings.h:145-177 | accepts exactly the well-formed sequences, gives the scalar value, and takes as many units as the first one announces |
| `Utf8.Validate` | modules/rapidjson/rapidjson/encodings.h:178-201 | accepts exactly what Decode accepts and copies the units it takes unchanged |
| `Utf8.Encode` | modules/rapidjson/rapidjson/encodings.h:101-122 | appends the encoding of the code point |
| `Utf8.EncodingDecodes` | modules/rapidjson/rapidjson/encodings.h:101-177 | the encoding of a scalar value is a well-formed sequence, whatever follows, and decodes to the value |
| `Utf8.ScalarOfBytes` | modules/rapidjson/rapidjson/encodings.h:145-177 | four bytes that start with a well-formed sequence decode to a scalar value whose encoding is that sequence |
| `Utf8.SequenceByMasks` | modules/rapidjson/rapidjson/encodings.h:145-220 | the class table and masks accept exactly the sequences of RFC 3629 section 4 |
| `Utf8.MasksAreArithmetic` | modules/rapidjson/rapidjson/encodings.h:101-177 | shifts, masks and or-ing on machine words are the arithmetic used in the specification |
| `Escaping.WriteString` | modules/rapidjson/rapidjson/writer.h:377-449 | writes the quoted literal, or stops where the string has no encoding, leaving a prefix; on every exit at most 2+6n units, 2+12n for an ASCII target, and never more than were reserved |
| `Escaping.WriteBody` | modules/rapidjson/rapidjson/writer.h:396-447 | the escaping loop stays within the units that were reserved, whether the whole string can be written or not |
| `Escaping.BodyFitsRoom` | modules/rapidjson/rapidjson/writer.h:391-394 | six units of output per unit of input suffice, twelve for an ASCII target |
| `Escaping.LiteralReadsBack` | modules/rapidjson/rapidjson/writer.h:377-449 | whatever can be written is decoded to the same byte string: with embedded NULs, and through surrogate pairs |
| `Escaping.BodyQuotedIff` | modules/rapidjson/rapidjson/writer.h:396-447 | UTF-8 to UTF-8 writes every byte string; with validation or an ASCII target exactly the well-formed ones |
| `Writer.NumeralsFitBuffers` | modules/rapidjson/rapidjson/writer.h:313-347 | every numeral fits the 11, 10, 21 and 20 units it is written into |
| `Writer.Writer.Handle` | modules/rapidjson/rapidjson/writer.h:182-253 | the effect of any legal event on output, level stack and root flag; a string without encoding is refused after its separator has been printed and its value counted |
| `Writer.Writer.Prefix` | modules/rapidjson/rapidjson/writer.h:473-492 | what precedes a value: a comma or colon by the parity of the count of the level, which then grows |
| `Writer.Writer.EndObject` | modules/rapidjson/rapidjson/writer.h:231-238 | the level is popped and the bracket written |
| `PrettyWriter.PrettyWriter.Handle` | modules/rapidjson/rapidjson/prettywriter.h:95-178 | the same with separators, line breaks and indentation |
| `PrettyWriter.PrettyWriter.PrettyPrefix` | modules/rapidjson/rapidjson/prettywriter.h:208-250 | separator, line break and indentation by level, position and array option |
| `PrettyWriter.PrettyIsCompactPlusBlanks` | modules/rapidjson/rapidjson/prettywriter.h:95-255 | for every event sequence, indentation and array option both writers accept the same events, and stripping blanks outside string literals turns the indented output into the plain one |
| `Printing.WriterPrints` | modules/rapidjson/rapidjson/writer.h:182-253 | sending a value's events appends exactly the text of the value, by recursion over the tree, from any writer state that may start a value |
| `Dom.Accept` | modules/rapidjson/rapidjson/document.h:1932-1970 | replays the events of the tree in order and stops as soon as the handler refuses one |
| `Dom.ConstructorsAgree` | modules/rapidjson/rapidjson/document.h:792-828 | all integer constructors give a number the same pattern and type flags, and the pattern denotes the number |
| `Words.High33` | modules/rapidjson/rapidjson/document.h:804-828 | the mask 0xFFFFFFFF80000000 is clear of a word exactly below 2^31, as the model has it; likewise High32, SignBit32 and SignBit64 |
| `Dom.IntegerEqualIsEquality` | modules/rapidjson/rapidjson/document.h:1052-1059 | comparing 64-bit patterns is equality exactly but for a negative integer and the unsigned integer 2^64 above it |
| `Dom.MinusOneEqualsMax` | modules/rapidjson/rapidjson/document.h:1052-1059 | an instance: -1 compares equal to 2^64-1 |
| `Document.GenericDocument.Handle` | modules/rapidjson/rapidjson/document.h:2803-2844 | the effect of an event on the build stack; only events that find their operands are handled |
| `Document.BuildEvents` | modules/rapidjson/rapidjson/document.h:2387-2417 | building from the events of a value leaves the value and nothing else above what was on the stack |
| `ParsedDocument.DocumentBuildsOne` | modules/rapidjson/rapidjson/document.h:2625-2636 | for every text, flag set and handler, every event sequence the parser publishes can be built, and success leaves exactly one value |
| `ParsedDocument.IterativeBuildsOne` | modules/rapidjson/rapidjson/document.h:2625-2636 | the same for the iterative parser |
| `ParsedDocument.ParseStream` | modules/rapidjson/rapidjson/document.h:2625-2636 | the root becomes the one value parsed, or stays when the text does not parse; the build stack ends up empty |
| `RoundTrip.ReadsBack` | modules/rapidjson/rapidjson/reader.h:1748-1765 | the printed text of a value is read, anywhere in a text, as the value's events in canonical form, integers as numerals if numbers are kept as text, and no further |
| `RoundTrip.PrintedReadsBack` | modules/rapidjson/rapidjson/document.h:1932-1970 | printed text, plain or indented, is accepted as a whole by both parsers, and the document rebuilds the same ordered tree with the same integers and type flags, one value on the stack; with numbers kept as text each integer comes back as the string of its numeral |
| `RoundTrip.PrintThenParse` | modules/rapidjson/rapidjson/document.h:1932-1970 | the pipeline itself: either writer, either parser, document; the value is the same exactly if numbers are not kept as text or there is none |
| `Document.SpelledIsSame` | modules/rapidjson/rapidjson/document.h:2812-2818 | replacing integers by their numerals changes a tree exactly if it holds one |
| `EventTrees.CompleteIsTree` | modules/rapidjson/rapidjson/writer.h:182-253 | every complete sequence of events a writer accepts, with any counts and any kinds of number events, prints the text of one tree, in every layout |
| `EventTrees.LayoutsReadAlike` | modules/rapidjson/rapidjson/prettywriter.h:95-255 | whatever complete sequence both writers are sent, the two texts differ only in blanks outside strings and parse to the same events with either parser |
| `RoundTrip.PrintIndented` | modules/rapidjson/rapidjson/prettywriter.h:95-255 | the indented printer writes the indented text of the tree |
| `MembersMap.EquivalentIsEqual` | modules/rapidjson/rapidjson/document.h:2108-2125 | names the order cannot tell apart are equal, so lookup through the index compares names as a search does |
| `MembersMap.LessIsTransitive` | modules/rapidjson/rapidjson/document.h:2108-2125 | the order by memory comparison and length is transitive |
| `MembersMap.ObjectData.AddMember` | modules/rapidjson/rapidjson/document.h:2289-2303 | appends the member and keeps the index in bijection with the member array, growing both buffers when full |
| `MembersMap.ObjectData.Reserve` | modules/rapidjson/rapidjson/document.h:2202-2211 | grows to the capacity asked for, contents and bijection kept |
| `MembersMap.ObjectData.Reallocate` | modules/rapidjson/rapidjson/document.h:2176-2196 | members and iterators move to larger buffers and still correspond |
| `MembersMap.ObjectData.FindMember` | modules/rapidjson/rapidjson/document.h:2213-2223 | finds a member with the name exactly when there is one, and with distinct names the very one a linear search finds |
| `MembersMap.ObjectData.LinearFindMember` | modules/rapidjson/rapidjson/document.h:2266-2273 | finds the first member with the name |
| `MembersMap.ObjectData.RemoveAt` | modules/rapidjson/rapidjson/document.h:2305-2327 | puts the last member in the place of the removed one and keeps the bijection |
| `MembersMap.ObjectData.RemoveMember` | modules/rapidjson/rapidjson/document.h:1529-1538 | removes a member with the name if there is one, and says so |
| `MembersMap.ObjectData.EraseMembers` | modules/rapidjson/rapidjson/document.h:2329-2361 | removes a range, keeps the others in order and the bijection |
| `MembersMap.ObjectData.EraseMember` | modules/rapidjson/rapidjson/document.h:1602-1611 | erases a member with the name if there is one, keeping order |
| `MembersMap.ObjectData.Clear` | modules/rapidjson/rapidjson/document.h:2225-2235 | leaves no member and no index entry |
| `MembersMap.UniquelyNamed` | modules/rapidjson/rapidjson/document.h:2266-2273 | with distinct names only one member can be found |
| `Insitu.InsituReader.ParseStringToStream` | modules/rapidjson/rapidjson/reader.h:959-1068 | decoding over the source gives the same text or the same error as decoding into a copy; the write cursor, terminator included, does not pass the read cursor and nothing still to be read changes; asked only that no sequence it comes to announces more units than the buffer has |
| `Insitu.LeavesAtTheEnd` | modules/rapidjson/rapidjson/encodings.h:178-201 | decoding leaves the buffer exactly if encodings are checked and it comes to one of the last two units before the terminator that announces more units than there are |
| `Insitu.LastUnitsSuffice` | modules/rapidjson/rapidjson/encodings.h:178-201 | so a caller who sees that neither of these two units announces too much is safe |
| `Insitu.WellFormedStaysInside` | modules/rapidjson/rapidjson/encodings.h:178-201 | it never does in a text that is well formed up to its terminator, or when encodings are not checked |
| `Insitu.AnnouncedPastTheEnd` | modules/rapidjson/rapidjson/encodings.h:178-201 | an instance that leaves the buffer: a quote, 0xF0 and the terminator |
| `Insitu.InsituReader.ParseStringUnit` | modules/rapidjson/rapidjson/reader.h:1004-1067 | one unit, escape or sequence never produces more units than it consumes |
| `Insitu.InsituReader.Validate` | modules/rapidjson/rapidjson/encodings.h:178-201 | copying a sequence over itself leaves what is unread as it was |
| `PointerText.TokensRoundTrip` | modules/rapidjson/rapidjson/pointer.h:863-1033 | for every canonical token list, stringify succeeds and parse gives the list back: any names in string form, UTF-8 names as URI fragment |
| `PointerText.ParseOfStringify` | modules/rapidjson/rapidjson/pointer.h:863-1033 | whatever stringify manages to write parses to the same tokens |
| `PointerText.StringifyOfParse` | modules/rapidjson/rapidjson/pointer.h:863-1033 | stringify of parse is the identity on valid pointers in string form, and parsing yields canonical tokens |
| `PointerText.ParsedRoundTrip` | modules/rapidjson/rapidjson/pointer.h:863-1033 | whatever text tokens were parsed from, string form or URI fragment, stringify in that form succeeds and parses to the same tokens |
| `PointerText.IndexOfNumeral` | modules/rapidjson/rapidjson/pointer.h:961-978 | the index of every numeral: none if the accumulator gets smaller at some digit, otherwise the number modulo 2^32 |
| `PointerText.FirstWrap` | modules/rapidjson/rapidjson/pointer.h:961-978 | for a number that its last digit takes beyond 32 bits the wrap goes unseen, and gives an index, exactly if the number modulo 2^32 is at least a tenth of it |
| `PointerText.IndexIsNumber` | modules/rapidjson/rapidjson/pointer.h:961-978 | a numeral has a usable index that is its number exactly below 4294967295; that number itself stands for no index |
| `PointerText.WrapSeen` | modules/rapidjson/rapidjson/pointer.h:961-978 | an instance of a wrap that is noticed: 4294967296 |
| `PointerText.WrapNotSeen` | modules/rapidjson/rapidjson/pointer.h:961-978 | an instance of the overflow check failing: 5000000000 becomes 705032704 |
| `Pointer.GenericPointer.Parse` | modules/rapidjson/rapidjson/pointer.h:863-990 | the loops over source, name buffer and token array compute the tokens or the error code and offset of the specification, staying within a buffer of as many units as the source, also on inputs that end in an error |
| `Pointer.GenericPointer.ParseName` | modules/rapidjson/rapidjson/pointer.h:898-959 | a name is decoded into the buffer behind the ones before, and the cursor stays behind the read position |
| `Pointer.GenericPointer.DecodePercent` | modules/rapidjson/rapidjson/pointer.h:903-923 | a sequence of triplets is decoded and checked, as many bytes as the first announces |
| `Pointer.PercentDecodeStream.Take` | modules/rapidjson/rapidjson/pointer.h:1052-1072 | a triplet gives its byte and moves on; anything else makes the stream invalid and gives NUL |
| `PointerAccess.GetByLoop` | modules/rapidjson/rapidjson/pointer.h:540-568 | the loop finds the value or the first token that does not resolve |
| `PointerAccess.CreateByLoop` | modules/rapidjson/rapidjson/pointer.h:461-508 | the loop with its moving position computes the created tree and whether the pointer was there already |
| `PointerAccess.EraseByLoop` | modules/rapidjson/rapidjson/pointer.h:772-810 | the loop with its moving position erases what the recursive definition erases, or nothing |
| `PointerAccess.CreateLaw` | modules/rapidjson/rapidjson/pointer.h:461-508 | alreadyExist holds exactly when the pointer resolved before, and then the tree is unchanged |
| `PointerAccess.CreatedResolves` | modules/rapidjson/rapidjson/pointer.h:461-508 | what is created resolves, to null if it was not there, exactly unless a `-` step appends to an array |
| `PointerAccess.DefaultLaw` | modules/rapidjson/rapidjson/pointer.h:594-598 | a value that is there is kept, one that is not is set to the default |
| `PointerAccess.SetLaw` | modules/rapidjson/rapidjson/pointer.h:671-683 | get after set gives the value set, exactly unless a `-` step appends to an array |
| `PointerAccess.AppendedIsNotGot` | modules/rapidjson/rapidjson/pointer.h:461-508 | an instance: setting at `-` appends, and `-` still does not resolve |
| `PointerAccess.SetOfGet` | modules/rapidjson/rapidjson/pointer.h:671-683 | setting what is there changes nothing |
| `PointerAccess.UpdateKeepsOthers` | modules/rapidjson/rapidjson/pointer.h:461-508 | what lies apart from the pointer still resolves to the same value |
| `PointerAccess.EraseLaw` | modules/rapidjson/rapidjson/pointer.h:772-810 | erase succeeds exactly when the pointer is non-empty and resolves once its last name is cut at its first NUL; for names without NUL, exactly when it resolves |
| `PointerAccess.EraseCutsName` | modules/rapidjson/rapidjson/pointer.h:799-801 | an instance with a NUL in the name: another member is erased |
| `PointerAccess.ErasedIsGone` | modules/rapidjson/rapidjson/pointer.h:772-810 | an erased member no longer resolves, if names are distinct |
| `PointerAccess.EraseKeepsOthers` | modules/rapidjson/rapidjson/pointer.h:772-810 | everything apart from what is erased resolves to the same value, later elements one index lower |
| `Allocator.MemoryPoolAllocator.Malloc` | modules/rapidjson/rapidjson/allocators.h:320-333 | a new block inside its chunk, aligned, disjoint from all live blocks, which keep their bytes; none only for size 0 or when the base allocator fails |
| `Allocator.MemoryPoolAllocator.Realloc` | modules/rapidjson/rapidjson/allocators.h:336-368 | for any live block and any original size that fits it, so also after shrinking: the block returned is large enough and begins with the bytes in use, whether it stayed, grew in place or moved; the old one stays live exactly if the address changed; all other blocks keep their bytes; none only for size 0 or when the base allocator fails |
| `Allocator.MemoryPoolAllocator.Move` | modules/rapidjson/rapidjson/allocators.h:361-368 | the bytes in use are copied to a new block disjoint from all live ones |
| `Allocator.ServeAll` | modules/rapidjson/rapidjson/allocators.h:320-368 | over any run of allocations, reallocations up or down, and writes by the owners, whatever the base allocator does: each block holds what its owner put there, cut to the size last asked for, as if it were a cell of its own; blocks are aligned and pairwise disjoint; a request is served exactly unless it names no block held, asks for nothing or finds the base allocator exhausted |
| `Allocator.Serve` | modules/rapidjson/rapidjson/allocators.h:320-368 | one request of such a run keeps the correspondence with separate cells |
| `Allocator.MemoryPoolAllocator.AddChunk` | modules/rapidjson/rapidjson/allocators.h:389-401 | a chunk in front; live blocks untouched |
| `Allocator.MemoryPoolAllocator.Clear` | modules/rapidjson/rapidjson/allocators.h:276-287 | all chunks but the first go, and all blocks |
| `Allocator.SizeWithinCapacity` | modules/rapidjson/rapidjson/allocators.h:292-309 | what is used never exceeds the capacity |
| `Hasher.HashesToOne` | modules/rapidjson/rapidjson/schema.h:246-333 | the events of a value leave exactly its hash above what was on the stack |
| `Hasher.HashIgnoresOrder` | modules/rapidjson/rapidjson/schema.h:278-286 | the hash does not change when members are permuted, at any depth |
| `Hasher.Hasher.Handle` | modules/rapidjson/rapidjson/schema.h:252-297 | the effect of an event on the stack of hashes, through the loops that pop |
| `StreamedValidity.StreamingIsSatisfaction` | modules/rapidjson/rapidjson/schema.h:704-1053 | feeding a value's events to a fresh validator leaves it valid exactly when the value satisfies the recursive definition of the keywords, and then nothing is left open |
| `ValidatedReading.ReadingIsSatisfaction` | modules/rapidjson/rapidjson/schema.h:838-860 | the same for the events a reader publishes for the value's text: the kinds of number events make no difference, and numbers kept as text are checked as strings |
| `StreamedValidity.ParallelDecide` | modules/rapidjson/rapidjson/schema.h:1262-1298 | the validators opened for a value, fed the whole value, say which of allOf, anyOf, oneOf, not and schema dependencies it satisfies |
| `StreamedValidity.EndAcceptsIff` | modules/rapidjson/rapidjson/schema.h:735-820 | the checks at the end of a value combine those answers as the keywords say |
| `StreamedValidity.DefaultExempts` | modules/rapidjson/rapidjson/schema.h:980-989 | what `required` adds to a schema: an absent required property is reported exactly when its own schema has no default string |
| `StreamedValidity.AbsentYetAccepted` | modules/rapidjson/rapidjson/schema.h:980-989 | an instance: an empty object is accepted although a property is required |
| `SchemaCompiler.Gather` | modules/rapidjson/rapidjson/schema.h:515-608 | the property list holds, without repetition, exactly the names in `properties`, `required` and `dependencies`, each with its schema, flag and dependency |
| `SchemaKeywords.ObjectsByName` | modules/rapidjson/rapidjson/schema.h:515-608 | streaming an object into a schema compiled from the property keywords accepts it exactly if: each member has a known name and satisfies what is declared for it, or may be additional and satisfies the schema for those; each required name without a default string is there; and what each name that is there depends on, by name or by schema, holds |
| `SchemaKeywords.GatherThenStream` | modules/rapidjson/rapidjson/schema.h:515-608 | the same for the property list that gathering the keywords gives, for every object |
| `SchemaCompiler.NamesWin` | modules/rapidjson/rapidjson/schema.h:585-608 | of several dependency entries for one name a list of names wins over a schema, in whatever order |
| `SchemaCompiler.KnownIsAllowed` | modules/rapidjson/rapidjson/schema.h:515-551 | every gathered name is allowed even where additional properties are not; one that is only required or depended on admits any value |
| `Schema.ChecksAreComparisons` | modules/rapidjson/rapidjson/schema.h:1313-1407 | the signed and unsigned checks compare the integers themselves, across the boundary of the two types |
| `SchemaValidator.GenericSchemaValidator.Handle` | modules/rapidjson/rapidjson/schema.h:2191-2273 | an event refines one step of the pure validator, and the text on the document stack is that of the path, also when the event is refused |
| `SchemaValidator.GenericSchemaValidator.BeginValue` | modules/rapidjson/rapidjson/schema.h:2365-2394 | opens the context of the next value and appends the index token inside an array |
| `SchemaValidator.GenericSchemaValidator.EndValue` | modules/rapidjson/rapidjson/schema.h:2396-2439 | closes the context and removes exactly one token |
| `SchemaValidator.GenericSchemaValidator.AppendToken` | modules/rapidjson/rapidjson/schema.h:2441-2456 | escapes the name so that the text is that of the longer path |
| `SchemaValidator.GenericSchemaValidator.PopToken` | modules/rapidjson/rapidjson/schema.h:2434-2436 | removes what stands behind the last slash, and the slash |
| `SchemaValidator.PathTextParses` | modules/rapidjson/rapidjson/schema.h:2441-2456 | parsing the document stack as a JSON Pointer gives the tokens of the path in progress |
| `DocumentPath.PathsOfRun` | modules/rapidjson/rapidjson/schema.h:2365-2456 | over every prefix of a run that meets no error, whatever the schema: the paths at which values began are a prefix of those of the tree, the path is that of the value in progress, and at the first refused event it is that of the value the event is about |
| `DocumentPath.PathsResolve` | modules/rapidjson/rapidjson/schema.h:1984-1991 | with distinct names these paths resolve in the tree to the values they stand for |
| `DocumentPath.PathsLeadToValues` | modules/rapidjson/rapidjson/schema.h:2365-2456 | for a value that satisfies the schema: all its values are visited in order at their paths, and the path is empty again at the end |
| `SchemaValidator.ValidateValue` | modules/rapidjson/rapidjson/schema.h:1984-1991 | running the validator over a value accepts it exactly when it satisfies the schema, and leaves both stacks empty; if not, parsing the document stack gives the tokens of the value at which the first refused event stands, and they resolve to it |

## Left out

- Insitu.InsituReader.ParseStringToStream: what happens behind the buffer, when a sequence that is checked announces more units than there are; Insitu.LeavesAtTheEnd says exactly when.
- Utf8.Validate: units behind the end of a text are NUL here, for the copying reader as well, where the source reads whatever follows the buffer.
- Reader.GenericReader.Parse: texts end in NUL; reading further gives NUL again, which hides that checking a sequence cut off by the end reads behind the buffer.
- Reader.GenericReader.ParseNumber: the conversions from significand and power of ten to a double, and the largest double, are parameters; doubles are reals, so rounding is not modelled. The fraction is scanned as on 64-bit architectures, where the significand starts in a 64-bit integer.
- Document.GenericDocument.Handle: nothing is said of event sequences that do not find their operands on the stack.
- ParsedDocument.DocumentBuildsOne: texts are shorter than 2^32 units, so that no 32-bit count wraps; the counts of the reader itself do wrap as in the source.
- RoundTrip.PrintedReadsBack: trees hold no doubles, since the algorithms that print them are not part of this model.
- PrettyWriter.PrettyIsCompactPlusBlanks: sequences with a double are not accepted by either writer of the model, for the same reason.
- MembersMap.ObjectData.FindMember: which of several members with one name is found is left open, as the standard multimap leaves it; the multimap is modelled by a map from iterators to entries.
- MembersMap.ObjectData.AddMember: the growth of the capacity does not wrap.
- PointerAccess.CreateByLoop: trees are values here, and a changed subtree is put back into the tree around it, so update in place, aliasing and the allocator are not captured; likewise for set and erase.
- PointerAccess.ErasedIsGone: elements are not included, since the next element takes the index; EraseKeepsOthers says where they go.
- Allocator.ServeAll: freeing a block does nothing in the source and is no request; a block left behind by a move stays live until clearing, but nobody holds it.
- Allocator.MemoryPoolAllocator.Malloc: sizes are far from the end of the address space, addresses are pairs of chunk and offset, and what the base allocator returns is a parameter.
- Hasher.Hasher.Handle: the bytes of the double that accompanies a hashed integer, and of the record made for a double, are parameters.
- StreamedValidity.StreamingIsSatisfaction: no `$ref`, patterns, `enum`, `uniqueItems`, and no bounds on doubles; sub-validators are values inside the context that owns them, where the source allocates objects.
- SchemaCompiler.Gather: the schemas of the properties are given already compiled; a schema dependency that a list of names displaces still gets a validator in the source, which decides nothing; two schemas given for one dependency name leave the first one's place among the validators unset in the source, which then reads it, while the model just keeps the last schema.
- SchemaKeywords.GatherThenStream: the same two cases of repeated dependency entries.
- Schema.ChecksAreComparisons: the magnitude taken for `multipleOf` of the least 64-bit integer is the mathematical one.
- Handlers are not polymorphic: a document or writer is fed by replaying the events that a handler recorded.
- In-situ parsing of numbers and whole documents, beyond strings.
- Encodings other than UTF-8 and ASCII, and the transcoding streams.
- SIMD variants, raw values, the non-finite number option of the writers, and iterative parsing one event at a time.
- Swap by pointer, and copying, sharing and reference counting of allocators.
- Regular expressions, remote references, continue-on-error mode and error reports of the schema validator.
- File, memory and iostream wrappers, and flushing.
- `Client`, `Service`, `NetworkIf`, `IfRuntime`, timers and logging: plumbing over libraries whose bodies are not part of this model.
