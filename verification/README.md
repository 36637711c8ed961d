# The JSON engine and the signing session of TrustedQSL, modelled and proved in Dafny

Two parts of TrustedQSL are modelled here.

**The JSON engine** (`apps/jsonval.cpp`, `apps/jsonreader.cpp`, `apps/jsonwriter.cpp`). Values are handles to
reference-counted data that is cloned before a shared copy is written. The reader is a hand-written parser over a byte
stream which tolerates errors and classifies what it tolerates by flags. The writer is a recursive printer with many
styles.

**The log-signing session** (`ConvertLogToString`, `ConvertLogFile`, `UploadLogFile`, `lock_db` and `unlock_db` in
`apps/tqsl.cpp`). It pulls records out of a converter, counts them and the troubles, asks the user, may restart the whole
pass, holds a lock on the database of duplicates, and leaves its caller to commit or to roll back.

`dafny verify dfyconfig.toml` checks everything.

## How it is organised

| files | content |
|---|---|
| `Bytes`, `JsonValue`, `Characters` | bytes; the plain trees that JSON values stand for; the characters and words of the engine, spelled out |
| `Decimal` | decimal text to 64-bit integers |
| `SameAs` | the comparison of two values |
| `ReaderSpec`, `Reader` | the reader as a function of the input left and a log of diagnostics; the class with the stream cursor, proved against it |
| `Grammar`, `Completeness`, `Rfc8259`, `RfcValue` | syntax trees with their text, value and diagnostics; every such text is read as it should be; the texts of RFC 8259, and the values that standard gives them |
| `Comments` | texts with comments and without; comments that do not end, and slashes that start none |
| `Tokens`, `IllFormed`, `Instances` | literals, numbers, digits and escapes one by one, good and bad; texts outside of the grammar; four short texts |
| `Depth` | the depth reported, and the depth of nesting |
| `Termination`, `Hanging`, `Diagnostics` | when parsing returns; flags, line numbers, normalised line ends |
| `WriterSpec`, `Writer` | the text written, as a function; the class that appends it to the stream, proved against it |
| `Lines` | the lines of the text: margins, rows, escapes |
| `Layout`, `RoundTrip`, `Orders`, `Styles`, `EndToEnd` | the text written is the text of a syntax tree; writing and reading back; what styles have in common; the two classes run one after the other |
| `Heap`, `HeapSteps`, `Isolation`, `Changes` | the memory of the values, its invariant, the primitive changes, what a change through a handle cannot touch |
| `CopyOnWrite`, `Rewriting`, `Placement`, `Operations`, `Store` | cloning, changing in place, and the operations of the value class |
| `TreeOps`, `ValueOps`, `Scalars`, `Paths`, `Program` | the same operations on plain trees; numbers in a word of 64 bits; whole programs on the store give what plain values give |
| `ValueLaws` | what the operations on plain trees do, item by item |
| `Clearing`, `Aliasing` | the steps of `Clear` on a memory whose counts may be wrong; the two ways in which values stop being plain |
| `SessionSpec`, `Session` | the answers of the converter and what they amount to; the session and its callers |
| `SessionLaws` | the same said of the answers themselves: fates, counts, statuses, whole batch runs |

Library behaviour enters as parameters. `ReaderSpec.Lib` holds UTF-8 checking, the conversion of text to double, and the
encoding of escapes from U+0080 up. The round trip asks that valid UTF-8 stays valid when it is cut after a line feed
(`CutsAtLf`). `SameAs.Rounding` is the conversion of 64-bit integers to double. In the session every dialog and every call of
the signing library is an input.

## Where the code does something else than its comments say

The model follows the code in each of these.

- `DoStrto_ll` does not compare the last digit with the limit: 18446744073709551616 to ...19 are read as 0 to 3. Integers of
  RFC 8259 are read as they should be exactly when they are not one of these four (`NumbersAreExact`, `TwoTo64IsZero`).
- A raw byte 0x08 where a value may start keeps `Parse` from ever returning (`BackspaceHangs`); `ParseHangsExactly` says for
  every text whether this happens.
- `SkipComment` is documented to return the first character after a comment. After a C++ comment whose line ends in a carriage
  return alone it returns that character without having read it, so that it is read twice (`LoneCr`): `[//` CR `1]` is an array
  of 11 (`ElevenForOne`). Every other comment that ends is passed over as if it were not there (`CommentsOnlyReport`).
- A word or a number does not end at a slash: a comment right behind one becomes part of it (`Grammar.Separates`), and `[1/*a*/]`
  is an array without items (`CommentIsGlued`).
- A small letter is no digit of a memory buffer, but each of the seven characters from `:` to `@` is one (`BufferReadExactly`). A
  string that is never closed ends in a byte 0xFF (`OpenString`).
- There are messages for a missing item of an array and for a name in an array, but no text calls for either
  (`TwoKindsNeverTold`).
- A member with an empty name cannot be read back. A text of RFC 8259 is read without a diagnostic exactly when no name is empty
  (`RfcTextsParse`), and as the value the standard gives it exactly when, besides, no number that counts is one of the four above
  (`RfcTextsMeanWhatTheySay`). Both are about texts whose strings come out as valid UTF-8.
- An escape for half of a surrogate pair is encoded by itself (`HalvesAreEncoded`). A string whose bytes are then not valid UTF-8
  is replaced by a text that says so, with one diagnostic; it is read without one exactly when they are valid
  (`StringReadExactly`).
- `GetDepth` is documented as the depth of nesting. It returns the number of arrays and objects, because the returns on closing
  brackets do not lower the level. The two agree exactly for the texts in which no array or object holds more than one array or
  object (`DepthIsNestingExactly`); `[[],[]]` is nested twice and reported as three deep (`TwoInOneIsThreeDeep`).
- `CloneRefData` copies the bytes of a memory buffer from the new object: every clone of a buffer is empty. The reader makes such
  a clone of every value it stores, so a buffer is decoded correctly and then lost (`BuffersAreReadAndLost`). A clone has the
  meaning of the original exactly if that is not a buffer with bytes in it (`CloneKeepsExactly`, `OneByteIsLost`).
- `IsSameAs` is asymmetric on a tree exactly when some member of an object, at any depth, is an invalid value
  (`SymmetricIffNoInvalidMember`). It is transitive through a value exactly when that value has no invalid member and no double
  that two 64-bit integers are converted to (`TransitiveExactlyThrough`). Doubles below 2^53 are safe, and 2^53 itself is not:
  the integers 2^53 and 2^53 + 1 are both the same as it, but not the same as each other (`IntransitiveAt53Bits`).
- A double that is formatted without point and exponent, such as 3.0, comes back as an integer (`WholeDoubles`); a double comes back
  as itself exactly if the library converts its text back to it and neither integer conversion takes the text
  (`DoubleReadsBack`).
- A reference to an item that is kept while its array is copied reaches both copies (`KeptReference`); who sees a change is stated
  exactly by `SeenExactlyByHolders`.
- `Clear` on shared data, of whatever content, leaves one reference uncounted and all other counts right (`ClearCounts`). With
  two owners it clears both; with more it changes no other value (`ClearSpills`). With two owners the end of one then frees the
  data of the other (`ClearDangles`).
- `Remove` on an index is documented to return FALSE for an element that does not exist. It returns TRUE for every array, so
  it keeps its word exactly if the value is no array or the index is in range (`Store.ValueStore.Remove`); on an empty array it
  reports the removal of index 0 (`RemoveFromNothing`).
- The session commits after `unlock_db`: the trace of `LogFile` and `UploadLog` shows the commit without the lock.
- A converter stays open when the date dialog is cancelled, when all answers were troubles, and when errors abort a pass without
  duplicates (`LeftOpenExactly` and `Session.Signer.Convert`), and when the compressed upload is empty
  (`Session.Signer.UploadLog`).
- The decision to ignore errors survives a restart (`SessionSpec.Carried`). The dates chosen in the dialog do not
  (`DatesKeptExactly`).
- Closing the error dialog without pressing a button ends the pass as if the log had ended (`Session.Signer.Complain`).
- The status of a conversion that was locked out or failed early shows as "no QSOs" at the callers (`EarlyStatus`).

## Model

| member | source | states |
|---|---|---|
| `Decimal.DoStrtoLl` | apps/jsonreader.cpp:2029-2124 | the table of powers is never indexed past 19; an unsigned or signed numeral is accepted exactly by `Accepts`, and its digits come out as their value modulo 2^64 |
| `Decimal.SumDigits` | apps/jsonreader.cpp:2109-2122 | the weighted sum of the digits from the last to the first is their value modulo 2^64 |
| `Decimal.Strtoll` | apps/jsonreader.cpp:1975-2000 | the signed result is the function `Signed` of the text |
| `Decimal.Strtoull` | apps/jsonreader.cpp:2008-2015 | the unsigned result is the function `UnsignedResult` of the text |
| `Decimal.PrefixDecides` | apps/jsonreader.cpp:2089-2107 | among twenty-digit numerals the first nineteen digits decide acceptance: below, at or above 1844674407370955161 |
| `Decimal.ConversionIsExact` | apps/jsonreader.cpp:1975-2124 | up to twenty digits: the signed result is exact iff it fits 64 signed bits and else refused below 2^64, the unsigned one is exact iff below 2^64; the four values from 2^64 on wrap, larger ones are refused |
| `Decimal.TwoTo64IsZero` | apps/jsonreader.cpp:2089-2107 | 18446744073709551616 is read as zero |
| `Decimal.SixtyFourBitsFit` | apps/jsonwriter.cpp:892-981 | the decimal digits printed for a 64-bit number are at most twenty |
| `SameAs.IsSameAs` | apps/jsonval.cpp:2273-2475 | the loops over items and members decide the relation `Same` |
| `SameAs.Reflexive` | apps/jsonval.cpp:2273-2475 | every tree is the same as itself |
| `SameAs.SameIsEquality` | apps/jsonval.cpp:2273-2475 | without invalid members and with exact rounding, the comparison holds iff the trees are equal once signed and unsigned integers are read as numbers |
| `SameAs.SameMembers` | apps/jsonval.cpp:2437-2466 | objects: equal size and one-way inclusion of names give equality of the maps, and back |
| `SameAs.Equivalence` | apps/jsonval.cpp:2273-2475 | on 64-bit trees without invalid values and doubles the comparison is reflexive, symmetric and transitive, whatever the rounding |
| `SameAs.ExactEquivalence` | apps/jsonval.cpp:2273-2475 | with exact rounding it is an equivalence with doubles, too |
| `SameAs.TransitiveIffExact` | apps/jsonval.cpp:2309-2343 | classifies conversions to double, not values: one makes the comparison transitive on all comparable trees iff it takes no two 64-bit integers to one double |
| `SameAs.TransitiveThrough` | apps/jsonval.cpp:2273-2475 | two values that are the same as a third are the same as each other, if the third has no invalid member and no double of two integers |
| `SameAs.IntransitiveWitness` | apps/jsonval.cpp:2273-2475 | for every other tree in the middle there are two values that it fails on |
| `SameAs.TransitiveExactlyThrough` | apps/jsonval.cpp:2273-2475 | tree by tree: transitive through b iff b has no invalid member and none of its doubles stands for two 64-bit integers; likewise among comparable trees |
| `SameAs.SmallIsUnambiguous` | apps/jsonval.cpp:2309-2343 | with a conversion that is exact up to 2^53 and keeps the order, doubles below 2^53 stand for one integer at most |
| `SameAs.IntransitiveAt53Bits` | apps/jsonval.cpp:2309-2343 | at 2^53 the comparison of 2^53, its double and 2^53 + 1 is not transitive |
| `SameAs.RoundingIsIdle` | apps/jsonval.cpp:2309-2343 | on trees without doubles the rounding has no say |
| `SameAs.AsymmetricWitness` | apps/jsonval.cpp:2437-2466 | every tree with an invalid member has a partner it is the same as, but not the other way round |
| `SameAs.SymmetricFrom` | apps/jsonval.cpp:2437-2466 | without invalid members the comparison can be turned round |
| `SameAs.SymmetricIffNoInvalidMember` | apps/jsonval.cpp:2437-2466 | symmetric in its first argument iff that has no invalid member |
| `Reader.JsonReader.ReadChar` | apps/jsonreader.cpp:481-512 | one character: CR LF becomes LF, line and column follow, and the state is the one `ReaderSpec.ReadChar` gives |
| `Reader.JsonReader.AddError` | apps/jsonreader.cpp:836-866 | the diagnostic is logged once, and the error list is the report of the log under the limit |
| `Reader.JsonReader.AddWarning` | apps/jsonreader.cpp:892-914 | with its flag set it becomes a warning, otherwise an error; nothing is lost |
| `Reader.JsonReader.SkipWhiteSpace` | apps/jsonreader.cpp:926-941 | blanks are skipped as the specification says |
| `Reader.JsonReader.SkipComment` | apps/jsonreader.cpp:956-1060 | line and block comments, and the resynchronisation after a strange one; `Completeness.BlockSkipped`, `LineSkipped` and `Comments` say it of the text |
| `Reader.JsonReader.ReadString` | apps/jsonreader.cpp:1107-1242 | escapes, control characters, the end of input and the joining of strings |
| `Reader.JsonReader.ReadUes` | apps/jsonreader.cpp:1521-1533 | the four characters of an escape |
| `Reader.JsonReader.ReadToken` | apps/jsonreader.cpp:1265-1302 | a token ends where the specification says |
| `Reader.JsonReader.ReadValue` | apps/jsonreader.cpp:1329-1498 | words, numbers and their diagnostics; `Tokens.LiteralsExactly` and `NumbersExactly` say which are which |
| `Reader.JsonReader.ReadMemoryBuff` | apps/jsonreader.cpp:1867-1941 | the bytes of a buffer, bad digits, and the joining of pieces |
| `Reader.JsonReader.StoreValue` | apps/jsonreader.cpp:750-816 | what is stored in the parent, and the diagnostics of each case |
| `Reader.JsonReader.Dispatch` | apps/jsonreader.cpp:583-715 | one turn of the switch on a character that opens nothing |
| `Reader.JsonReader.CloseContainer` | apps/jsonreader.cpp:583-715 | a closing bracket stores the last value, reports a mismatch and returns from the container |
| `Reader.JsonReader.DoRead` | apps/jsonreader.cpp:559-733 | the whole loop with its recursion gives the outcome of `ReaderSpec.DoRead`, or never returns exactly where that says so |
| `Reader.JsonReader.GetStart` | apps/jsonreader.cpp:402-425 | the first opening character outside comments |
| `Reader.JsonReader.Parse` | apps/jsonreader.cpp:339-386 | value, log, position and number of errors of a parse from the start |
| `Reader.Advance` | apps/jsonreader.cpp:481-512 | after each character the line number is one more than the line feeds consumed, the column follows, and what was delivered is the consumed input with line ends normalised |
| `Reader.ReadTwice` | apps/jsonreader.cpp:892-914 | two readers that differ in flags and limit only build the same value, raise the same diagnostics, and with more flags there are no more errors |
| `Reader.SameReports` | apps/jsonreader.cpp:892-914 | errors and warnings together are as many under any flags |
| `Diagnostics.NothingLost` | apps/jsonreader.cpp:892-914 | every diagnostic is an error or a warning, never both |
| `Diagnostics.MoreFlagsFewerErrors` | apps/jsonreader.cpp:892-914 | more flags never give more errors |
| `Diagnostics.AllDelivered` | apps/jsonreader.cpp:481-512 | at the end of the input the reader has seen exactly the input with each CR LF as LF and a final lone CR dropped |
| `Diagnostics.ReportNote` | apps/jsonreader.cpp:836-850 | one more diagnostic: the list grows until the limit, where one message says there are too many |
| `Diagnostics.ExtensionsExactly` | apps/jsonreader.cpp:892-914 | which diagnostics each flag makes warnings of |
| `Diagnostics.FlagsActAlone` | apps/jsonreader.cpp:892-914 | with several flags a diagnostic is a warning iff it is one with one of them |
| `Diagnostics.PositionIs` | apps/jsonreader.cpp:481-512 | a text starts in line 1, column 1; without carriage returns the line is one more than the line feeds passed, the column one more than the characters since |
| `Diagnostics.ToldExactly` | apps/jsonreader.cpp:836-850 | a message gives that line and that column |
| `Diagnostics.ReportExactly` | apps/jsonreader.cpp:836-850 | up to the limit every event has its message, in order; beyond it there is exactly one more |
| `ReaderSpec.BackspaceComesBack` | apps/jsonreader.cpp:1265-1302 | a backspace is handed back with nothing read and the value unchanged |
| `Tokens.LiteralsExactly` | apps/jsonreader.cpp:1351-1395 | every token of the letters of true, false or null, each as it is or a capital, is that value, with a diagnostic iff there is a capital; no other token is a literal |
| `Tokens.LiteralRead` | apps/jsonreader.cpp:1329-1395 | the same for ReadValue on the text |
| `Tokens.NumbersExactly` | apps/jsonreader.cpp:1398-1491 | which tokens are integers, signed or unsigned, by the value of their digits, which are left to the conversion to double, and which are no numbers |
| `Tokens.BadTokenDropped` | apps/jsonreader.cpp:1494-1497 | any other token is reported once and leaves no value |
| `Tokens.SecondValueDropped` | apps/jsonreader.cpp:1337-1340 | a value after a value is reported and dropped, but for further pieces of strings and buffers |
| `Tokens.HexDigits` | apps/jsonreader.cpp:1564-1572 | the hexadecimal digits of an escape are 0 to 9 and a to f in either case |
| `Tokens.QuadsExactly` | apps/jsonreader.cpp:1564-1572 | four of them name a code |
| `Tokens.BufferReadExactly` | apps/jsonreader.cpp:1867-1941 | pairs of buffer digits are bytes; pairs that are none are left out and reported once |
| `Tokens.UnknownEscapeDropped` | apps/jsonreader.cpp:1107-1242 | a backslash before an unknown letter is reported, and both are left out |
| `Tokens.BadQuad` | apps/jsonreader.cpp:1564-1572 | four characters that are no digits: what the library scans is appended, or the escape is reported |
| `Tokens.OpenString` | apps/jsonreader.cpp:1107-1242 | a string that is never closed |
| `Completeness.WordIsRead` | apps/jsonreader.cpp:1351-1395 | the words matched without regard to case are those spelled with capitals or without |
| `Completeness.BlockSkipped` | apps/jsonreader.cpp:1007-1024 | a comment of C is skipped up to the first place at which a star, the opening one included, meets a slash; the reader goes on behind it, with one diagnostic |
| `Completeness.LineSkipped` | apps/jsonreader.cpp:980-1000 | a comment of C++ is skipped up to the end of its line, whose line feed is handed back, with one diagnostic |
| `Completeness.SkipGap` | apps/jsonreader.cpp:583-600 | blanks and comments between two tokens are passed over as if they were not there, each comment noted once |
| `Completeness.BodyRead` | apps/jsonreader.cpp:1107-1242 | the characters of a literal, escaped or not, are read as the bytes they stand for |
| `Completeness.ReadLiteral` | apps/jsonreader.cpp:1107-1242 | a literal in any number of pieces is read as their concatenation, with one diagnostic for each further piece |
| `Completeness.BuffRead` | apps/jsonreader.cpp:1867-1941 | hexadecimal digits are read as the bytes they were made of, without errors |
| `Completeness.ReadHexPieces` | apps/jsonreader.cpp:1867-1941 | a buffer in any number of rows is read as all of its bytes |
| `Completeness.ReadDoc` | apps/jsonreader.cpp:559-733 | inside any array or object, a well-formed text is read as its value, whatever follows it, and raises exactly its diagnostics |
| `Completeness.ReadItems` | apps/jsonreader.cpp:559-733 | the items of an array are read in order |
| `Completeness.ReadMembers` | apps/jsonreader.cpp:559-733 | the members of an object are read, the last one of a name wins, one without a name is reported |
| `Rfc8259.ParseDocument` | apps/jsonreader.cpp:339-386 | a whole text with anything before and after: value, diagnostics and nothing else; the depth reported is the number of containers |
| `Rfc8259.ParseOnto` | apps/jsonreader.cpp:339-386 | the same for a value that holds something: an array is appended to an array, members are put over those of an object, anything else is lost |
| `Comments.CommentsOnlyReport` | apps/jsonreader.cpp:956-1060 | with comments anywhere before it and in it, a text has the value and the depth it has without them, the same other diagnostics in the same order, and one more for each comment |
| `Comments.CommentedRfcText` | apps/jsonreader.cpp:956-1060 | a text of RFC 8259 with comments strewn in has the value that standard gives it without them |
| `Comments.OpenBlock` | apps/jsonreader.cpp:1007-1024 | a comment of C that does not end takes all that is left |
| `Comments.LoneCr` | apps/jsonreader.cpp:989-994 | after a line that ends in a carriage return alone the next character is handed back unread |
| `Comments.StrangeSlashSkipped` | apps/jsonreader.cpp:1035-1050 | a slash before anything else: what is skipped, and what is handed back |
| `IllFormed.StoredExactly` | apps/jsonreader.cpp:750-816 | an array takes every value, an object every value with a name; what is dropped is reported, by one diagnostic |
| `IllFormed.ColonExactly` | apps/jsonreader.cpp:688-706 | a colon makes a name of a string in an object that waits for one; otherwise nothing changes, and one diagnostic says why |
| `IllFormed.OpeningExactly` | apps/jsonreader.cpp:601-655 | the complaints about where a container is opened |
| `IllFormed.OtherClose` | apps/jsonreader.cpp:622-668 | closed by the wrong character a container has the value it has when closed by the right one, and one more diagnostic |
| `IllFormed.EndCloses` | apps/jsonreader.cpp:717-731 | at the end of the input a container is closed as if by its own character, with one more diagnostic |
| `IllFormed.NothingOpened` | apps/jsonreader.cpp:372-376 | a text that opens nothing is reported once, besides its comments, and leaves the value alone |
| `IllFormed.TwoKindsNeverTold` | apps/jsonreader.cpp:800-806 | no text is told that an array item is missing, or that an array holds a name |
| `Instances.ShoutedIsTrue` | apps/jsonreader.cpp:1371-1377 | `[TRUE]` is an array of true, with one diagnostic |
| `Instances.CommentIsPassed` | apps/jsonreader.cpp:1007-1024 | `[/*a*/1]` is an array of 1, with one diagnostic |
| `Instances.CommentIsGlued` | apps/jsonreader.cpp:1265-1302 | `[1/*a*/]` is an empty array, with a bad token |
| `Instances.ElevenForOne` | apps/jsonreader.cpp:989-994 | `[//` CR `1]` is an array of 11 |
| `Depth.NestingIsNoMore` | apps/jsonreader.cpp:559-566 | the depth of nesting is at most the number of containers, and equal to it iff no array or object holds more than one array or object |
| `Depth.DepthIsNestingExactly` | apps/jsonreader.cpp:439-448 | for every well-formed text the depth reported is at least the depth of nesting, and equal to it iff no array or object, at any level, holds more than one array or object |
| `Depth.TwoInOneIsThreeDeep` | apps/jsonreader.cpp:439-448 | `[[],[]]` is nested twice and reported as three deep |
| `Rfc8259.NumbersAreExact` | apps/jsonreader.cpp:1329-1498 | a number of section 6 of RFC 8259 is read as it should be iff it is not one of the four that wrap around |
| `Rfc8259.RfcTextsParse` | apps/jsonreader.cpp:339-386 | every text of RFC 8259 rooted in an array or object, whose strings come out as valid UTF-8, is read to the value of its syntax tree, with numbers as the reader converts them; there is no diagnostic iff no name is empty |
| `RfcValue.StringReadExactly` | apps/jsonreader.cpp:1107-1242 | any string of section 7 of RFC 8259: its characters, and no diagnostic iff their bytes are valid UTF-8; otherwise a fixed text and one diagnostic |
| `RfcValue.HalvesAreEncoded` | apps/jsonreader.cpp:1545-1590 | the halves of a surrogate pair are encoded one by one |
| `RfcValue.NumeralIsUnique` | apps/jsonreader.cpp:1329-1498 | the text of a number of section 6 of RFC 8259 determines its sign, whole part, fraction and exponent |
| `RfcValue.ValueFound` | apps/jsonreader.cpp:559-733 | without empty names the value read is the one the standard gives iff no number that counts wraps around |
| `RfcValue.MembersFound` | apps/jsonreader.cpp:750-816 | the members read are those of the text, the last of each name |
| `RfcValue.RfcTextsMeanWhatTheySay` | apps/jsonreader.cpp:339-386 | a text of RFC 8259 whose strings come out as valid UTF-8 is read without a diagnostic as the value the standard gives it iff no name is empty and no number wraps around, unless a later member replaces it |
| `Termination.TurnClean` | apps/jsonreader.cpp:583-715 | one turn on input without backspace hands on no backspace and never hangs |
| `Termination.LoopEnds` | apps/jsonreader.cpp:583-731 | the loop of DoRead ends on such input |
| `Termination.ParseEnds` | apps/jsonreader.cpp:339-386 | Parse returns on every input without the byte 0x08 |
| `Termination.BackspaceHangs` | apps/jsonreader.cpp:704-713 | after an opening character that byte keeps Parse from returning, whatever follows |
| `Hanging.TurnMoves` | apps/jsonreader.cpp:583-715 | how far a turn of the loop reads depends on the text alone, not on values, names or diagnostics |
| `Hanging.LoopStumbles` | apps/jsonreader.cpp:583-731 | the loop hangs only where a scan that merely counts open containers meets a backspace, and otherwise leaves off where the scan goes on |
| `Hanging.ParseHangsExactly` | apps/jsonreader.cpp:339-386 | Parse fails to return on a text iff that scan, started after the opening character, meets a backspace |
| `Writer.JsonWriter.WriteStringValue` | apps/jsonwriter.cpp:650-814 | the quoted, escaped and split text of a string, up to its first NUL |
| `Writer.JsonWriter.WriteMemoryBuff` | apps/jsonwriter.cpp:1095-1181 | a buffer as hexadecimal rows or as a list of numbers |
| `Writer.JsonWriter.WriteHex` | apps/jsonwriter.cpp:1143-1175 | rows of twenty bytes, cut only when enough are left |
| `Writer.JsonWriter.WriteByteList` | apps/jsonwriter.cpp:1115-1142 | the numbers of the array form, separated by commas |
| `Writer.JsonWriter.WriteIndent` | apps/jsonwriter.cpp:591-632 | the blanks of the current level; `Lines.MarginIs` counts them |
| `Writer.JsonWriter.WriteKey` | apps/jsonwriter.cpp:1044-1052 | a name, quoted, and its colon |
| `Writer.JsonWriter.DoWrite` | apps/jsonwriter.cpp:338-543 | the lines of a value at the current level, which `Lines.LineOfItem` says item by item; the level is restored on return |
| `Writer.JsonWriter.Write` | apps/jsonwriter.cpp:293-296 | the text of a whole value |
| `Lines.LineOfItem` | apps/jsonwriter.cpp:338-543 | in every style and for every item of the tree: its text follows the end of a line and the margin of its depth, its name and a colon between spaces come first, a comma follows iff it is not the last, and the line ends |
| `Lines.IndentedExactly` | apps/jsonwriter.cpp:609-632 | in lines, character by character: a line feed, exactly indent + step * depth spaces (none if negative) or as many tabs as the depth, and then no blank |
| `Lines.SplitAtFeed` | apps/jsonwriter.cpp:783-811 | a string is broken behind each line feed iff the style splits strings, and goes on two levels deeper |
| `Lines.RowsOfTwenty` | apps/jsonwriter.cpp:1143-1175 | the rows of a buffer: twenty bytes each, as long as there are 24 left |
| `Lines.NoCut` | apps/jsonwriter.cpp:1143-1175 | fewer bytes, or another style, make one row |
| `Lines.EscapesExactly` | apps/jsonwriter.cpp:686-779 | which characters of a string are escaped in which style, and how |
| `Lines.CutAtNul` | apps/jsonwriter.cpp:678-693 | a string is written up to its first NUL |
| `Layout.LiteralIsWritten` | apps/jsonwriter.cpp:650-814 | the text of a string is that of a literal of the grammar, pieces and gaps included |
| `Layout.HexIsWritten` | apps/jsonwriter.cpp:1095-1181 | likewise for the rows of a buffer |
| `Layout.ValueIsWritten` | apps/jsonwriter.cpp:338-543 | in every style the text of a value is that of a syntax tree |
| `RoundTrip.LiteralReadsBack` | apps/jsonwriter.cpp:650-814 | that literal is well-formed and denotes exactly the string, for every mix of escaping and splitting |
| `RoundTrip.HexReadsBack` | apps/jsonwriter.cpp:1095-1181 | the rows of a buffer denote exactly its bytes |
| `RoundTrip.BuffersAreReadAndLost` | apps/jsonval.cpp:2914-2920 | a written buffer is read back to its bytes by successive reads, and the value stored for it is empty |
| `RoundTrip.ArrayToMemoryBuff` | apps/jsonval.cpp:3156-3172 | the loop keeps the items that are integers from 0 to 255, in order |
| `RoundTrip.ByteListReadsBack` | apps/jsonval.cpp:3156-3172 | the array form is read back to an array from which ArrayToMemoryBuff takes the same bytes |
| `RoundTrip.IntReadsBack` | apps/jsonwriter.cpp:892-928 | a signed number is read back as itself |
| `RoundTrip.UIntReadsBack` | apps/jsonwriter.cpp:940-981 | an unsigned number is read back as unsigned if marked or large, else as the equal signed one |
| `RoundTrip.DoubleReadsBack` | apps/jsonwriter.cpp:996-1009 | a double is read back as itself iff the library converts its text back to it and neither integer conversion takes the text |
| `RoundTrip.WholeDoubles` | apps/jsonwriter.cpp:996-1009 | a double formatted as an integer is read back as that integer |
| `RoundTrip.WriteThenParse` | apps/jsonwriter.cpp:338-543 | any tree of 64-bit integers, doubles that the library formats without loss, strings, buffers, arrays and objects, in any comment-free style: reading gives it back leaf by leaf, and only the diagnostics of extensions the style uses |
| `RoundTrip.NoErrors` | apps/jsonreader.cpp:892-914 | with the flags of those extensions set there is no error |
| `RoundTrip.BackIsSame` | apps/jsonval.cpp:2273-2475 | without buffers what comes back is equal as numbers, and identical if unsigned numbers are marked |
| `RoundTrip.RoundTripIsSame` | apps/jsonwriter.cpp:266-296 | written and parsed, a tree is the same as before in the sense of IsSameAs |
| `Orders.OrderOf` | apps/jsonwriter.cpp:473-520 | every tree can be written in some order of its members |
| `Orders.TreesComeBack` | apps/jsonwriter.cpp:266-296 | hence every tree of null, Booleans, 64-bit integers, doubles formatted without loss, NUL-free strings, arrays and objects without empty names comes back |
| `EndToEnd.WriteAndRead` | apps/jsonwriter.cpp:266-296 | the writer and then the parser, run on any such tree in any order of its members: the parser returns, counts no error, and IsSameAs holds; the tree is identical if unsigned numbers are marked |
| `Styles.StringsAgree` | apps/jsonwriter.cpp:650-814 | strings of agreeing styles are identical |
| `Styles.ValuesAgree` | apps/jsonwriter.cpp:338-543 | values of agreeing styles differ in blanks outside literals only |
| `Styles.StylesDifferInBlanks` | apps/jsonwriter.cpp:338-543 | so do whole texts |
| `Heap.NoCycle` | apps/jsonval.cpp:2821-2852 | no data reaches data that holds it |
| `Heap.OnlyThroughOwner` | apps/jsonval.cpp:2975-2990 | data with one handle is reached from elsewhere only by what holds that handle |
| `HeapSteps.ShareInv` | apps/jsonval.cpp:2821-2834 | one more handle keeps counts exact, every handle in one place and the graph without cycles |
| `HeapSteps.FreshInv` | apps/jsonval.cpp:203-230 | so does new data |
| `HeapSteps.DropInv` | apps/jsonval.cpp:2843-2852 | so does the end of a handle, with its data if it was the last |
| `HeapSteps.EditInv` | apps/jsonval.cpp:1651-1724 | so does a change of the items of some data, if none of them reaches it |
| `HeapSteps.PointInv` | apps/jsonval.cpp:2821-2834 | so does pointing a handle elsewhere |
| `Isolation.Untouched` | apps/jsonval.cpp:2975-2990 | a change through a handle leaves the tree of every handle that does not hold it |
| `Isolation.VariablesAreValues` | apps/jsonval.cpp:2975-2990 | for variables such a change is an assignment to one of them |
| `Paths.LocalIn` | apps/jsonval.cpp:1707-1754 | an operation on an item reached through exclusive data is local to the value it was reached from, which sees the item anew and nothing else |
| `Store.ValueStore.constructor` | apps/jsonval.cpp:189-192 | a new store has no values |
| `Store.ValueStore.NewValue` | apps/jsonval.cpp:203-230 | a new variable with its own data |
| `Store.ValueStore.Copy` | apps/jsonval.cpp:398-414 | a new variable with the value of another; nothing else changes |
| `Store.ValueStore.Release` | apps/jsonval.cpp:418-420 | the data goes exactly with its last handle, its items end in turn, and nothing goes that the handle did not reach |
| `Store.ValueStore.CloneRefData` | apps/jsonval.cpp:2891-2928 | a clone shares the items and loses the bytes of a buffer |
| `Store.ValueStore.AllocExclusive` | apps/jsonval.cpp:2975-2990 | the data is exclusive afterwards, the value is the same but for a buffer, and no other handle changes |
| `Store.ValueStore.Rewrite` | apps/jsonval.cpp:1651-1678 | exclusive data takes its new items and the lost ones end |
| `Store.ValueStore.Assign` | apps/jsonval.cpp:2821-2834 | the receiver has the value assigned, and only the receiver and what holds it change |
| `Store.ValueStore.SetType` | apps/jsonval.cpp:2715-2782 | the type changes and the old content goes, or nothing if it fits |
| `Store.ValueStore.SetScalar` | apps/jsonval.cpp:1860-1923 | a number or bool replaces the value |
| `Store.ValueStore.SetString` | apps/jsonval.cpp:1940-1944 | a string replaces the value |
| `Store.ValueStore.Cat` | apps/jsonval.cpp:1588-1600 | a string grows, anything else is left |
| `Store.ValueStore.Append` | apps/jsonval.cpp:1465-1478 | the array has one more item, which is returned |
| `Store.ValueStore.Item` | apps/jsonval.cpp:1707-1724 | the array is filled up with nulls to the index, whose item is returned |
| `Store.ValueStore.ItemOf` | apps/jsonval.cpp:1736-1754 | the object has a member of the name, null if it is new, which is returned |
| `Store.ValueStore.Remove` | apps/jsonval.cpp:1643-1661 | the item at the index is gone, or nothing if there is none; the result says whether the value is an array, which is whether there was such an item iff it is no array or the index is in range |
| `Store.RemoveFromNothing` | apps/jsonval.cpp:1643-1661 | on an empty array, Remove of index 0 returns TRUE and changes nothing |
| `Store.ValueStore.RemoveOf` | apps/jsonval.cpp:1666-1678 | the member of the name is gone, and the result says whether there was one |
| `ValueOps.BecomeMeans` | apps/jsonval.cpp:2715-2782 | SetType in terms of JSON trees |
| `ValueOps.WithWordMeans` | apps/jsonval.cpp:1860-1923 | assigning a scalar in terms of JSON trees; `Scalars.AssignedMeans` says it of the number assigned |
| `ValueOps.ExtendedMeans` | apps/jsonval.cpp:1588-1600 | Cat in terms of JSON trees |
| `ValueOps.AppendedMeans` | apps/jsonval.cpp:1465-1478 | Append in terms of JSON trees: the items, and one more |
| `ValueOps.GrownMeans` | apps/jsonval.cpp:1707-1724 | Item on an index in terms of JSON trees: what is found there, and what the array is once it is replaced |
| `ValueOps.NamedMeans` | apps/jsonval.cpp:1736-1754 | Item on a name in terms of JSON trees |
| `ValueOps.ShortenedMeans` | apps/jsonval.cpp:1651-1661 | Remove on an index in terms of JSON trees |
| `ValueOps.DeprivedMeans` | apps/jsonval.cpp:1666-1678 | Remove on a name in terms of JSON trees: the map without the name |
| `ValueOps.ExclusiveMeans` | apps/jsonval.cpp:2891-2928 | cloning changes the meaning of buffers only |
| `ValueOps.CloneKeepsExactly` | apps/jsonval.cpp:2914-2920 | a clone means what the original means iff that is no buffer with bytes |
| `ValueOps.LookThenItem` | apps/jsonval.cpp:1707-1804 | after operator[] along a path, ItemAt finds along it what operator[] led to |
| `Scalars.SignedExactly` | apps/jsonval.cpp:1860-1923 | the word read as signed is the number of 64 signed bits that differs from it by a multiple of 2^64 |
| `Scalars.AssignedMeans` | apps/jsonval.cpp:1860-1923 | assigned to any value, a number of 64 bits or a Boolean is what it then stands for |
| `Scalars.SetInt` | apps/jsonval.cpp:1860-1890 | on the store: after assigning i, from -2^63 up to 2^63, the handle stands for Int(i), and nothing else changes |
| `Scalars.SetUInt` | apps/jsonval.cpp:1860-1923 | likewise for u below 2^64 |
| `Scalars.SetBool` | apps/jsonval.cpp:1860-1923 | likewise for a Boolean |
| `Scalars.MeaningIn64` | apps/jsonval.cpp:1860-1923 | whatever is in memory, every number it stands for fits 64 bits |
| `ValueLaws.StepFinds` | apps/jsonval.cpp:1707-1804 | operator[] finds the item or null, ItemAt the item or an invalid value |
| `ValueLaws.StepPuts` | apps/jsonval.cpp:1707-1754 | changed at an index or name, a value holds the new item there, the old ones elsewhere, and nulls where there were none |
| `ValueLaws.UpdateThere` | apps/jsonval.cpp:1707-1835 | where an operation was applied, along any path, ItemAt finds its result |
| `ValueLaws.UpdateElsewhere` | apps/jsonval.cpp:1707-1835 | along any path that parts from it, ItemAt finds what was there |
| `ValueLaws.ActsExactly` | apps/jsonval.cpp:1465-1678 | each operation, said of the items, names and characters of the value |
| `ValueLaws.CommandsExactly` | apps/jsonval.cpp:2820-2990 | a command changes no variable but its own and its operand's |
| `ValueLaws.AssignmentArrives` | apps/jsonval.cpp:2821-2834 | after an assignment ItemAt finds the value at both places |
| `ValueLaws.IntegerArrives` | apps/jsonval.cpp:1860-1890 | after assigning a 64-bit integer along any path ItemAt finds it there |
| `Program.Apply` | apps/jsonval.cpp:1465-1978 | each operation, an assignment to itself among them, does to a value what it does to a plain tree, and to no other variable anything; the operand may be any value that neither holds the target nor is held by it |
| `Program.Perform` | apps/jsonval.cpp:1707-1835 | operator[] along any path and then an operation, likewise |
| `Program.Fetch` | apps/jsonval.cpp:1707-1835 | operator[] along a path: the value changes as a plain tree does, the item is what the path leads to, and stays apart from any value the receiver was apart from |
| `Program.Seek` | apps/jsonval.cpp:1764-1804 | ItemAt along a path finds the item of the plain tree, or that there is none, and changes nothing |
| `Program.DoOn` | apps/jsonval.cpp:1465-1978 | an operation on an item of a variable, with an item of a variable as operand |
| `Program.DoDup` | apps/jsonval.cpp:1764-1804 | a new variable from what ItemAt finds, invalid if it finds nothing |
| `Program.AppendOwn` | apps/jsonval.cpp:1465-1478 | an array may have one of its own items appended |
| `Program.Run` | apps/jsonval.cpp:2820-2990 | any sequence of operations on items with items as operands, self-assignments, copies of items, and ends of variables: every variable stands for what plain values would give, counts stay exact, every number fits 64 bits, and with the last variable all data is gone |
| `Program.NothingLeft` | apps/jsonval.cpp:2843-2852 | without variables there is no data: nothing leaks |
| `Aliasing.Ripple` | apps/jsonval.cpp:2975-2990 | every other handle sees its old tree with the item replaced wherever it holds it |
| `Aliasing.SeenExactlyByHolders` | apps/jsonval.cpp:2975-2990 | a change shows in another value iff that value holds the handle and the handle has changed |
| `Aliasing.KeptReference` | apps/jsonval.cpp:1707-1724 | a reference kept while its array is copied changes the copy |
| `Clearing.EndAllAside` | apps/jsonval.cpp:2843-2852 | the destructors of handles and of what goes with them keep right counts right, and do the same where one count they do not meet is wrong |
| `Clearing.CowWorld` | apps/jsonval.cpp:2975-2990 | COW on shared data, step by step, is the change that the invariant allows |
| `Clearing.RetypedWorld` | apps/jsonval.cpp:2715-2782 | the tail of SetType, items and all, commutes with one uncounted reference elsewhere or to the data itself |
| `Clearing.ClearOfOne` | apps/jsonval.cpp:1688-1691 | with one owner: the data and its items end, new data is made, all counts are right, and nobody else sees a change |
| `Clearing.ClearOfTwo` | apps/jsonval.cpp:1688-1691 | with two owners: SetType finds a count of one and empties the data in place |
| `Clearing.ClearOfMany` | apps/jsonval.cpp:1688-1691 | with more owners: SetType clones, and takes away a second reference |
| `Aliasing.ClearCounts` | apps/jsonval.cpp:1688-1691 | for every value: Clear keeps the reference counts right iff the data is not shared; otherwise exactly the data left behind lacks one reference |
| `Aliasing.ClearSpills` | apps/jsonval.cpp:1688-1691 | another variable that does not hold the handle sees a change iff the data had two owners, the variable reaches it, and it was not invalid |
| `Aliasing.ClearDangles` | apps/jsonval.cpp:2843-2852 | after Clear on data with two owners, the end of the other owner leaves the handle without data |
| `Session.Signer.Lock` | apps/tqsl.cpp:2070-2079 | the session goes on unless the database is busy in batch mode; the lock is held iff it was taken |
| `Session.Signer.SignPass` | apps/tqsl.cpp:2141-2297 | the pass goes on exactly while its answers say so; records, duplicates, out-of-range and errors are those of the answers taken, processed is their sum at every turn, and the output is the text of the records; once Cancel has been pressed records are dropped and only an error left behind is looked at |
| `Session.Signer.Weigh` | apps/tqsl.cpp:2175-2296 | what an answer that is no record to be signed does to the pass and to its counts, a record that came with the press of Cancel among them |
| `Session.Signer.Complain` | apps/tqsl.cpp:2257-2293 | what an error does: batch mode decides, or the user, who is asked once and may ignore errors, give up, or close the dialog |
| `Session.Signer.Resolve` | apps/tqsl.cpp:2298-2407 | restart, exit status, records left and state of the converter after a pass, with the lock released unless it is run again; `SessionLaws.StatusExactly` and `SessionSpec.OneMorePass` say it case by case |
| `Session.Signer.BeginPass` | apps/tqsl.cpp:2092-2122 | how a pass begins: the converter, the date dialog, and the dates that hold |
| `Session.Signer.Convert` | apps/tqsl.cpp:1922-2407 | no exit leaves the lock held; every call of the library, in every pass, is made in the same state of the lock; no commit; each pass starts from the decisions of the one before and none of its counts; status, records, output, converter and date filter are those of the last pass; never a second pass with NewOnly or AbortAll, with AllQsos one iff the pass finished with duplicates, if the user is asked iff, besides, the answer was to send them |
| `Session.Signer.LogFile` | apps/tqsl.cpp:2424-2536 | a commit comes only after the file was written and closed, on the open converter, and at most once; with records left the converter is ended once; the file holds the output |
| `Session.Signer.UploadLog` | apps/tqsl.cpp:2599-2665 | a commit comes only after an upload that returned 0; with records left the converter is ended once, unless the compressed text is empty, when it stays open |
| `Session.NoCommit` | apps/tqsl.cpp:1922-2407 | the conversion itself never commits |
| `SessionSpec.SuccessMeansAll` | apps/tqsl.cpp:2394-2406 | success: as many records as processed, more than none, and no trouble |
| `SessionSpec.RecordsMeanOpen` | apps/tqsl.cpp:2394-2406 | with records left the status is success, suppressed or cancel, and the converter is open unless the session was cancelled |
| `SessionSpec.LeftOpenExactly` | apps/tqsl.cpp:2394-2406 | the exact condition under which a pass leaves an open converter and nothing to write |
| `SessionSpec.DatesKeptExactly` | apps/tqsl.cpp:2094-2122 | what a pass delivers lies in the dates chosen iff it is the first pass, or they come from the command line, or none were chosen |
| `SessionSpec.AtMostOneRestart` | apps/tqsl.cpp:2348-2379 | if a converter that allows duplicates reports none, there is at most one restart |
| `SessionSpec.OnlyNewRecords` | apps/tqsl.cpp:2357-2383 | with NewOnly and AbortAll the one pass was made with duplicates refused |
| `SessionLaws.BatchFate` | apps/tqsl.cpp:2141-2297 | what each answer does to a pass in batch mode, action by action |
| `SessionLaws.UserFate` | apps/tqsl.cpp:2141-2297 | what it does with a user |
| `SessionLaws.CancelledFate` | apps/tqsl.cpp:2141-2297 | and once Cancel has been pressed |
| `SessionLaws.NothingMoreSigned` | apps/tqsl.cpp:2143-2170 | after Cancel no record counts any more or goes to the output, while a trouble still counts |
| `SessionLaws.CountsAreNumbers` | apps/tqsl.cpp:2141-2297 | the counts are the numbers of answers of each sort, the output is the text of the records |
| `SessionLaws.BatchGoesOn` | apps/tqsl.cpp:2255-2271 | a batch run for new records or for all goes on to the end of its log, whatever errors there are, and counts everything |
| `SessionLaws.BatchAborts` | apps/tqsl.cpp:2255-2264 | a batch run that aborts stops at the first error that is shown, and counts it |
| `SessionLaws.IgnoringExactly` | apps/tqsl.cpp:2255-2293 | errors are ignored from the first dismissed one on, and not before |
| `SessionLaws.PassesExactly` | apps/tqsl.cpp:2080-2126 | the first pass refuses duplicates and asks about errors; a later one sends duplicates and keeps the decision about errors |
| `SessionLaws.StatusExactly` | apps/tqsl.cpp:2298-2407 | status, records and converter, case by case |
| `SessionLaws.FilterExactly` | apps/tqsl.cpp:2094-2122 | which dates hold for which pass |
| `SessionLaws.NewRecordsSent` | apps/tqsl.cpp:1922-2407 | a whole batch run for new records: one pass, every new record in the output, and the status by what else there was |
| `SessionSpec.FileIsSettled` | apps/tqsl.cpp:2481-2519 | every way of writing the file ends the converter once, and commits once iff everything was written and closed |
| `SessionSpec.UploadIsSettled` | apps/tqsl.cpp:2653-2663 | every upload ends the converter once, and commits once iff it returned 0 |
| `SessionSpec.GoesOn` | apps/tqsl.cpp:2138-2296 | an answer that lets the pass go on adds to exactly one count |

## Left out

- ReaderSpec.Lib: text to double, UTF-8 checking and escapes from U+0080 up are parameters; the ANSI build and `ConvertCharByChar` are not modelled.
- Doubles: formatting them is the library's; the round trip is about the doubles that `%.10g` loses nothing of (`RoundTrip.DoubleFits`), and `Styles.StylesDifferInBlanks` only asks that formatted doubles hold no quotes.
- Comments: their text and placement (`StoreComment`, `AddComment`, `WriteComment`) are not modelled, so the flag StoreComments and the comment styles are excluded; a comment is skipped input with one diagnostic, wherever a blank may stand.
- Reader.JsonReader.Parse: without the flag StoreComments, for the same reason.
- Reader.ReadTwice: likewise.
- Writer.JsonWriter.DoWrite: without comments and failures of the stream.
- Reader.JsonReader.PeekChar: returns -1 at the end of the input, as its own comment says; the code looks at the stream's last read instead.
- Writer: failures of the output stream, and the split of long lines by column, which cannot happen because the column is never counted up.
- Writer.JsonWriter.Write: the members of an object are written in an order that is an input (`Ordered`), since the order of the map is the library's; `Orders.TreesComeBack` supplies one.
- Store.ValueStore.Append: an appended value must not reach its receiver, and must outlive it if the receiver is not an array; the code does not check either.
- Store.ValueStore.Assign: the value assigned must not lie inside unshared data of the receiver, where the source reads freed memory; a value that lies there but deeper, in data with another owner, survives in the source and is excluded, too.
- Store.ValueStore.Remove: `RemoveAt` of the array class is taken to refuse an index out of range and to leave the array as it is; a debugging build of that class also reports it.
- Store.ValueStore.SetScalar: the union of the scalar types is one word, so assigning a bool replaces all of it; C strings, line numbers and comments of values are not modelled.
- Store.ValueStore.Grow: the temporary null value becomes the first new item instead of being copied once for each and dropped.
- Store.ValueStore.ItemOf: new names go last; the order of the source's map is the library's, and no result depends on it.
- Rfc8259.RfcTextsParse: strings whose bytes are not valid UTF-8 once their escapes are encoded are outside; `StringReadExactly` says what becomes of each of them.
- RfcValue.RfcTextsMeanWhatTheySay: likewise.
- ValueOps.BecomeMeans: SetType to a number or buffer type shows the word that was there before, which plain trees do not have; `Store.ValueStore.SetType` states it for every type.
- ValueOps.ShortenedMeans: not for a memory buffer, which `Remove` empties if it is shared.
- ValueOps.DeprivedMeans: not for a memory buffer, as before.
- Program.Apply: the operand and the target do not hold each other; the code then makes a cycle, or reads data it has freed.
- Program.Perform: the same.
- Program.Run: an item of a variable goes into the same variable through a copy (`Dup`), unless it is appended to that variable; a variable is not put into one of its own items, which makes a cycle in the source; references kept across other commands are covered by `SeenExactlyByHolders` instead.
- Session.Signer.Convert: a pass is a finite sequence of answers, and the passes are supplied; `Unfinished` says that they ran out, which `AtMostOneRestart` excludes for two.
- Session.Signer.Lock: batch mode is one flag; the source has the global `quiet` and the window's own.
- Choice of certificates and station location before the lock is one input (`early`); progress texts, logging and the Windows lock are left out.
- Accessors, `Dump`, `Find`, `Get`, `ItemAt` and `DeepCopy` of the value class: copies of what `Copy` and `Item` do, or plain reads.
