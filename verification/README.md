# Models of the Terminal repository's algorithmic parts

Eight parts of the Windows Terminal repository have a short specification and a clever
implementation. Each is modelled here in Dafny, in the form the code has: objects and loops stay
objects and loops, straight-line code becomes functions, and a protocol between threads becomes a
state machine. `dafny verify dfyconfig.toml` checks all of it.

**JSON** (`Json*.dfy`, from `dep/jsoncpp/jsoncpp.cpp`). `JsonStrings` and `JsonNumbers` say what quoted
strings and integers mean; `JsonReader` says what the recursive-descent reader returns on any bytes
under any feature setting, error recovery included; `JsonReaderCode` is the reader as an object that
moves through the document and is proved to return exactly that. What it accepts is said a second
time by bytes alone: `JsonSpellings`, `JsonLayout` and `JsonGrammar` describe strings in every spelling,
white space and comments, numbers, and values with gaps between their tokens, after RFC 8259 and with the
reader's extensions; `JsonTokens`, `JsonTexts` and `JsonDocuments` prove that every such document is read as what
it stands for, and `JsonInverse` and `JsonAccepted` that nothing else is accepted, with the exceptions listed below. `JsonWriter` is the compact writer, and `JsonCompact` says which of those texts it writes.
`JsonRoundTrip`, `JsonRefusals` and `JsonIdentity` put the two together, for every tree without reals and
every setting of writer and reader: the text is read back as exactly that tree if and only if its
strings are well-formed UTF-8 (section 4 of RFC 3629), its keys are short enough, its nesting and root
are accepted, and its nulls are either written or supplied; what comes back otherwise is given too.

**Population count** (`BitBytes.dfy`, `Popcount*.dfy`, from `oss/libpopcnt/libpopcnt.h`). Bytes are eight
Booleans, so the specification is plain counting. The word trick, the carry-save adders, the nibble
lookup with sums of absolute differences, the Harley-Seal loops and both drivers are proved to count
the ones of exactly the given bytes, at every address and length; the 64 bits of the result are enough
for any memory below 2^61 bytes, and beyond that the count is exact modulo 2^64.

**Dynamic bitset** (`Bit*.dfy`, `DynamicBitset.dfy`, from `oss/dynamic_bitset/dynamic_bitset.hpp`). A vector of
blocks of any width refines a sequence of Booleans through every run of operations, with the unused
bits zero throughout; searching, visiting, counting and ordering are those of the sequence.

**Interval tree** (`IntervalTree.dfy`, from `oss/interval_tree/IntervalTree.h`). Construction keeps the intervals
and every query returns what a linear filter would.

**Console arguments** (`ArgumentQuoting.dfy`, `QuotingRules.dfy`, `ConsoleArguments.dfy`, `ConsoleOptions.dfy`, from
`src/host/ConsoleArguments.cpp`). Quoting is undone by the documented rule for backslashes before quotes. The
option loop is proved against a recursive description of it, and that against the texts of the options:
which command lines are accepted, and what each setting is at the end.

**INI sections** (`IniSections.dfy`, `IniNames.dfy`, from `dep/CLI11/CLI11.hpp`). The flat list of sections becomes nested open
and close events: after every header exactly the prefixes of its path are open, every input comes out
while exactly the path of its section is open, and everything is closed at the end. This holds for the
files that do not read a key or stop in the default section with something open, and for no others.
What the path of a section is, is said by joining it with dots again.

**Command list popup** (`CommandListPopup.dfy`, from `src/host/CommandListPopup.cpp`). Every run of keys follows
a function of one key, for every history and height. It keeps the selection in the scrolling window as
long as the 16-bit arithmetic does not wrap, and exactly when it wraps is proved as well; it never adds
or doubles a command, and closes the popup with the last deletion.

**Bounded queue** (`BoundedQueue.dfy`, from `samples/ReadConsoleInputStream/ConcurrentBoundedQueue.cs`). All
interleavings of any number of producers and consumers; the bound on the count is proved and reached,
and the capacity is shown to be kept exactly by a single producer.

## Where the code does not do what one might expect

- A string that is not well-formed UTF-8 is not kept when it is written as ASCII: each bad byte or
  sequence is replaced. `JsonStrings.AsciiIdentityIffWellFormed` and `JsonIdentity.RoundTripIff` give the
  exact condition.
- A writer that drops nulls and a reader that supplies them agree on all trees but a null root, which
  leaves nothing to read, and arrays of a single null, which come back empty
  (`JsonIdentity.LoneNullIsLost`, `JsonIdentity.EmptyDocument`).
- Returning to `[default]` from a section of two or more segments leaves the outer segments open unless
  another section follows directly (`IniSections.ReturnExample`, `IniSections.FromConfig`).
- End in the popup goes to the first command instead of the last when the sum of the selection and the
  number of commands does not fit 16 bits (`CommandListPopup.EndSelectsLast`), so does a page down whose sum
  does not fit (`CommandListPopup.PageMoves`), and the window is lost when the
  number of commands exceeds the height and their sum exceeds 32769 (`CommandListPopup.WindowIffFits`).
- The upper extent reported by the interval tree's validity check is always the smallest scalar
  (`IntervalTree.SoundIsValid`), so the check does not look at what a left child holds
  (`IntervalTree.ValidIff`, `IntervalTree.LeftIsNotChecked`).
- In JSON a comment is not taken between a name and its colon, nor in front of the bracket of an empty
  array; a comma in front of a closing brace is taken after an empty key even where it is not allowed
  (`JsonGrammar.Taken`). Digits may be missing after a sign, a point or the letter of an exponent, so a minus
  sign alone is a zero (`JsonGrammar.IsNumeral`).
- Three things let the reader accept a JSON document outside the grammar, and where it does not supply nulls
  nothing else does (`JsonAccepted.AcceptedIff`): a comment, since any token but a closing brace is taken for the comma behind one
  that follows a member, and an apostrophe can open one; a zero byte, which hides the rest of the document
  (`JsonAccepted.ZeroHides`); and a quotation mark between apostrophes, which ends the text of that string
  (`JsonAccepted.QuoteCuts`).
- The comments on `s_GetArgumentValue` say that the index is decremented on success; the code leaves it
  where it is, and the model follows the code.
- The `Capacity` of the queue is exceeded by up to one item per extra producer
  (`BoundedQueue.BoundIsReached`, `BoundedQueue.NeverOverIff`).

## Model

| member | source | states |
|---|---|---|
| `JsonStrings.DecodeEncode` | dep/jsoncpp/jsoncpp.cpp:4242-4300 | on a well-formed UTF-8 character the decoder takes exactly its bytes and the encoder gives them back |
| `JsonStrings.EncodedIsChar` | dep/jsoncpp/jsoncpp.cpp:125-151 | every scalar value is encoded as one well-formed UTF-8 character |
| `JsonStrings.QuotedIsEscaped` | dep/jsoncpp/jsoncpp.cpp:4234-4404 | the shortcut for strings that need no quoting gives the same text as escaping every character |
| `JsonStrings.SurrogateRoundTrip` | dep/jsoncpp/jsoncpp.cpp:4384-4400 | a code point above 0xFFFF is written as a surrogate pair that is read back as one code point |
| `JsonStrings.DecodeEscaped` | dep/jsoncpp/jsoncpp.cpp:1900-2002 | decoding the escaped text never fails and gives the repaired string, for all byte strings and both modes |
| `JsonStrings.ScanEscaped` | dep/jsoncpp/jsoncpp.cpp:1647-1657 | scanning stops at the closing quote and nowhere before it, whatever follows |
| `JsonStrings.QuoteScanDecode` | dep/jsoncpp/jsoncpp.cpp:4329-4404 | quoting, scanning and decoding consumes exactly the quoted text and gives the repaired string |
| `JsonStrings.RawIsIdentity` | dep/jsoncpp/jsoncpp.cpp:4329-4404 | with raw UTF-8 output nothing is repaired: every byte string survives |
| `JsonStrings.AsciiIdentityIffWellFormed` | dep/jsoncpp/jsoncpp.cpp:4329-4404 | with ASCII output a string survives if and only if it is well-formed UTF-8 |
| `JsonStrings.RepairedIsWellFormed` | dep/jsoncpp/jsoncpp.cpp:4242-4300 | what comes back after ASCII output is always well-formed UTF-8 |
| `JsonStringCode.EscapeCharacter` | dep/jsoncpp/jsoncpp.cpp:4345-4400 | one turn of the quoting loop writes the escape of the next character and advances past it |
| `JsonStringCode.ValueToQuotedString` | dep/jsoncpp/jsoncpp.cpp:4329-4404 | the quoting loop computes the quoted text |
| `JsonStringCode.DecodeUnicodeEscapeSequence` | dep/jsoncpp/jsoncpp.cpp:1978-2002 | the four-digit loop computes the code unit or the error |
| `JsonStringCode.DecodeUnicodeCodePoint` | dep/jsoncpp/jsoncpp.cpp:1953-1976 | one or two escapes are joined to a code point, or the error is the right one |
| `JsonStringCode.DecodeString` | dep/jsoncpp/jsoncpp.cpp:1900-1951 | the decoding loop computes the text of a token, or its first error, as `JsonSpellings` describes it |
| `JsonSpellings.SpellingDecodes` | dep/jsoncpp/jsoncpp.cpp:1900-2002 | every spelling of a string, with raw bytes, the eight short escapes and four digits of either case chosen at will, is decoded as that string |
| `JsonSpellings.SpellingScans` | dep/jsoncpp/jsoncpp.cpp:1647-1669 | the scan ends at the quotation mark or apostrophe behind a spelling and nowhere before it |
| `JsonSpellings.DecodedIsSpelling` | dep/jsoncpp/jsoncpp.cpp:1900-2002 | text that is decoded without an error is such a spelling, up to a quotation mark that is not escaped |
| `JsonNumbers.DecodeNumber` | dep/jsoncpp/jsoncpp.cpp:1787-1865 | for every text: the exact integer if it fits 64 bits, signed when negative, and otherwise the double path; no wrap-around |
| `JsonNumbers.IntegerRoundTrip` | dep/jsoncpp/jsoncpp.cpp:4150-4172 | reading a written integer gives the same integer, unsigned exactly above the signed maximum |
| `JsonNumbers.DecimalRoundTrip` | dep/jsoncpp/jsoncpp.cpp:167-173 | the decimal digits of a number have that number as their value |
| `JsonNumbers.UIntToString` | dep/jsoncpp/jsoncpp.cpp:167-173 | the digits end up in the buffer, the pointer stays inside it, and nothing else changes |
| `JsonNumbers.ValueToString` | dep/jsoncpp/jsoncpp.cpp:4150-4164 | the text of a signed integer, the smallest one included |
| `JsonNumbers.UnsignedValueToString` | dep/jsoncpp/jsoncpp.cpp:4166-4172 | the text of an unsigned integer |
| `JsonValues.SetMemberSorted` | dep/jsoncpp/jsoncpp.cpp:3464-3480 | storing a member keeps the keys strictly ascending |
| `JsonValues.SetMemberAppends` | dep/jsoncpp/jsoncpp.cpp:3464-3480 | a key above all others is a new last member |
| `JsonValues.KeyLessTotal` | dep/jsoncpp/jsoncpp.cpp:2703-2718 | two keys are equal or one is below the other |
| `JsonValues.KeyLessTransitive` | dep/jsoncpp/jsoncpp.cpp:2703-2718 | the order of keys is transitive |
| `JsonReaderFacts.ParseSound` | dep/jsoncpp/jsoncpp.cpp:1238-1282 | on all bytes and settings: success if and only if no error was recorded, the tree is no higher than the stack limit, and its objects are ordered |
| `JsonReaderFacts.ReadValueSound` | dep/jsoncpp/jsoncpp.cpp:1284-1374 | the same for a value read at any depth |
| `JsonReaderFacts.ReadArraySound` | dep/jsoncpp/jsoncpp.cpp:1735-1775 | the same for the rest of an array |
| `JsonReaderFacts.ReadObjectSound` | dep/jsoncpp/jsoncpp.cpp:1671-1733 | the same for the rest of an object |
| `JsonReaderCode.OurReader.GetNextChar` | dep/jsoncpp/jsoncpp.cpp:2034-2038 | the next character, or zero without moving at the end |
| `JsonReaderCode.OurReader.SkipSpaces` | dep/jsoncpp/jsoncpp.cpp:1494-1502 | stops at the first character that is not a blank |
| `JsonReaderCode.OurReader.ReadString` | dep/jsoncpp/jsoncpp.cpp:1647-1669 | finds the closing quote that is not escaped, or the end |
| `JsonReaderCode.OurReader.ReadNumber` | dep/jsoncpp/jsoncpp.cpp:1621-1646 | takes exactly the characters of a number, or refuses after a sign before Infinity |
| `JsonReaderCode.OurReader.ReadComment` | dep/jsoncpp/jsoncpp.cpp:1525-1557 | ends where the comment ends, or fails |
| `JsonReaderCode.OurReader.ReadToken` | dep/jsoncpp/jsoncpp.cpp:1386-1492 | the next token of the described lexer under every feature setting, `current_` staying inside the document |
| `JsonReaderCode.OurReader.SkipCommentTokens` | dep/jsoncpp/jsoncpp.cpp:1376-1384 | the next token that is not a comment, when comments are allowed; terminates |
| `JsonReaderCode.OurReader.RecoverFromError` | dep/jsoncpp/jsoncpp.cpp:2013-2024 | skips to the wanted token or the end, terminates, and drops the errors found on the way |
| `JsonReaderCode.OurReader.ReadValue` | dep/jsoncpp/jsoncpp.cpp:1284-1374 | throws exactly above the stack limit or on too long a key, with no error recorded and the position inside the document; otherwise value, position, errors and stack are those described, the stack as high as before |
| `JsonReaderCode.OurReader.ReadArray` | dep/jsoncpp/jsoncpp.cpp:1735-1775 | the element loop: same outcome as described, stack restored |
| `JsonReaderCode.OurReader.ReadObject` | dep/jsoncpp/jsoncpp.cpp:1671-1733 | the member loop: same outcome as described, stack restored |
| `JsonReaderCode.OurReader.Parse` | dep/jsoncpp/jsoncpp.cpp:1238-1282 | on every byte sequence: terminates with the described root, status and errors, inside the document after an exception too |
| `JsonLayout.BlanksLex` | dep/jsoncpp/jsoncpp.cpp:1494-1502 | spaces, tabs, line feeds and carriage returns in front of a token are skipped, any number of them |
| `JsonLayout.OthersStay` | dep/jsoncpp/jsoncpp.cpp:1494-1502 | no other byte is skipped as white space |
| `JsonLayout.GapPasses` | dep/jsoncpp/jsoncpp.cpp:1525-1620 | white space and both kinds of comments in front of a token do not change it |
| `JsonTokens.NumeralLexes` | dep/jsoncpp/jsoncpp.cpp:1621-1646 | a number with sign, fraction and exponent is one token, up to what follows it |
| `JsonTokens.NumeralDecodes` | dep/jsoncpp/jsoncpp.cpp:1787-1865 | its integer is the one its digits give, if it is one and fits |
| `JsonTokens.AtomLexes` | dep/jsoncpp/jsoncpp.cpp:1386-1492 | the words, and the special numbers where they are allowed, by their letters |
| `JsonTexts.ReadItems` | dep/jsoncpp/jsoncpp.cpp:1735-1775 | elements with gaps around them, and a last comma where it is allowed, are read onto those already there |
| `JsonTexts.ReadEntries` | dep/jsoncpp/jsoncpp.cpp:1671-1733 | names in any spelling, their colons and values, with gaps, are stored one after the other |
| `JsonTexts.ReadSyntax` | dep/jsoncpp/jsoncpp.cpp:1284-1374 | every text of the grammar that the settings take is read as what it stands for, at any depth, or throws exactly when it is too deep |
| `JsonDocuments.ParseText` | dep/jsoncpp/jsoncpp.cpp:1238-1282 | every document of the grammar, with a byte order mark, white space and comments around it, is read as what it stands for, unless it is too deep or its root is refused |
| `JsonDocuments.ParseExtra` | dep/jsoncpp/jsoncpp.cpp:1238-1282 | more text behind a container is an error if and only if the settings say so |
| `JsonInverse.NumberInverse` | dep/jsoncpp/jsoncpp.cpp:1621-1646 | every number token is a number of the grammar |
| `JsonInverse.QuoteInverse` | dep/jsoncpp/jsoncpp.cpp:1647-1669 | every string token that is decoded is a string of the grammar between its quotes |
| `JsonAccepted.ValueInverse` | dep/jsoncpp/jsoncpp.cpp:1284-1374 | whatever is accepted as a value is white space and a value of the grammar that the settings take, and stands for what was read; the rest is what follows it |
| `JsonAccepted.ArrayInverse` | dep/jsoncpp/jsoncpp.cpp:1735-1775 | what is accepted as the rest of an array is elements of the grammar between commas, and the bracket |
| `JsonAccepted.ObjectInverse` | dep/jsoncpp/jsoncpp.cpp:1671-1733 | what is accepted as the rest of an object is entries of the grammar between commas, with keys that fit, and the brace |
| `JsonAccepted.AcceptedIff` | dep/jsoncpp/jsoncpp.cpp:1238-1282 | a document in which no comment, zero byte or quotation mark between apostrophes is found is accepted if and only if it is a document of the grammar, not too deep and with an accepted root |
| `JsonAccepted.ZeroHides` | dep/jsoncpp/jsoncpp.cpp:1386-1492 | behind a zero byte anything may follow a document |
| `JsonAccepted.QuoteCuts` | dep/jsoncpp/jsoncpp.cpp:1900-1951 | a quotation mark that is not escaped ends the text of a string |
| `JsonDocuments.SetIsUpdate` | dep/jsoncpp/jsoncpp.cpp:3464-3480 | storing a member is an update of the map of members |
| `JsonDocuments.StoredIsGathered` | dep/jsoncpp/jsoncpp.cpp:1671-1733 | the members of an object are its entries in key order, the last of equal keys |
| `JsonDocuments.KeyLessIff` | dep/jsoncpp/jsoncpp.cpp:2703-2718 | keys are ordered by their first differing byte, a proper prefix first |
| `JsonWriter.FastWriter.WriteValue` | dep/jsoncpp/jsoncpp.cpp:4435-4487 | appends the text of the value to the document and changes nothing before it |
| `JsonWriter.FastWriter.WriteDocument` | dep/jsoncpp/jsoncpp.cpp:4427-4433 | the whole document, with its line feed unless omitted |
| `JsonCompact.WriterSpells` | dep/jsoncpp/jsoncpp.cpp:4329-4404 | printable ASCII is written as it is, then short escapes apart from the slash, then lower-case digits; that spelling stands for the repaired string |
| `JsonCompact.WritesCompact` | dep/jsoncpp/jsoncpp.cpp:4435-4487 | the writer writes the value in the grammar with no gaps, the shortest numbers and that spelling, and nothing else |
| `JsonRoundTrip.ReadWritten` | dep/jsoncpp/jsoncpp.cpp:1284-1374 | a written value is read back, at any depth and whatever delimiter follows, or throws exactly when it is too high |
| `JsonRoundTrip.ReadItemsWritten` | dep/jsoncpp/jsoncpp.cpp:1735-1775 | written elements are read back onto those already there |
| `JsonRoundTrip.ReadMembersWritten` | dep/jsoncpp/jsoncpp.cpp:1671-1733 | written members are stored one after the other in those already there |
| `JsonRoundTrip.ParseWritten` | dep/jsoncpp/jsoncpp.cpp:1238-1282 | what parsing a written document gives for every writable tree, with nulls written or dropped and supplied: the tree read back, or the exception, or the root error |
| `JsonRefusals.ReadUnwritable` | dep/jsoncpp/jsoncpp.cpp:1671-1733 | a tree with a key that is too long, or read twice where that is rejected, is never read successfully, at any depth |
| `JsonRefusals.ReadLosing` | dep/jsoncpp/jsoncpp.cpp:4437-4440 | without placeholders for dropped nulls, what is read successfully ends where it should and has no null in it |
| `JsonRefusals.EmptiedWritesAlike` | dep/jsoncpp/jsoncpp.cpp:4437-4464 | a writer that drops nulls writes an array of a single null as an empty one, and all other arrays as they are |
| `JsonIdentity.RoundTripIff` | dep/jsoncpp/jsoncpp.cpp:4435-4487 | for every tree without reals and every setting of writer and reader: the text is read back as that tree if and only if its strings are well formed, its unsigned integers need to be unsigned, keys, nesting and root are accepted, and its nulls are kept |
| `JsonIdentity.NullsWrittenIff` | dep/jsoncpp/jsoncpp.cpp:1238-1282 | the same where no null is lost, for readers that reject duplicate keys too |
| `JsonIdentity.LoneNullIsLost` | dep/jsoncpp/jsoncpp.cpp:1735-1775 | a tree with an array of a single null never comes back if nulls are dropped, even to a reader that supplies them |
| `JsonIdentity.NullIsLost` | dep/jsoncpp/jsoncpp.cpp:1735-1775 | a tree with any null never comes back if nulls are dropped and the reader does not supply them |
| `JsonIdentity.EmptyDocument` | dep/jsoncpp/jsoncpp.cpp:1284-1374 | a dropped root is refused |
| `JsonIdentity.ReadBackIsIdentity` | dep/jsoncpp/jsoncpp.cpp:4435-4487 | what comes back equals what was written if and only if the tree is faithful |
| `PopcountWord.PairSumsNumber` | oss/libpopcnt/libpopcnt.h:143-143 | the first step leaves in every two bits the number of ones there, without a borrow |
| `PopcountWord.NibbleSumsNumber` | oss/libpopcnt/libpopcnt.h:144-144 | the second step leaves the count of every nibble, without a carry |
| `PopcountWord.ByteStepIsSums` | oss/libpopcnt/libpopcnt.h:145-145 | the third step leaves the count of every byte |
| `PopcountWord.TopDigit` | oss/libpopcnt/libpopcnt.h:147-147 | the multiplication brings the sum of the eight bytes to the top byte |
| `PopcountWord.Popcount64IsPop` | oss/libpopcnt/libpopcnt.h:136-148 | the twelve operations count the ones of every word |
| `PopcountVector.CsaIdentity` | oss/libpopcnt/libpopcnt.h:356-361 | a + b + c = 2h + l in ones, for vectors of any width |
| `PopcountVector.TernaryIsCsa` | oss/libpopcnt/libpopcnt.h:493-497 | the three-operand logic with 0x96 and 0xe8 is the same adder |
| `PopcountVector.Popcnt256Counts` | oss/libpopcnt/libpopcnt.h:366-389 | the lookups and sums of absolute differences count the ones of the vector over the four lanes |
| `PopcountVector.Popcnt512Counts` | oss/libpopcnt/libpopcnt.h:478-488 | the byte-wise sums count the ones of the vector over its lanes |
| `PopcountHarleySeal.Csa` | oss/libpopcnt/libpopcnt.h:356-361 | both adders keep the identity |
| `PopcountHarleySeal.Absorb16` | oss/libpopcnt/libpopcnt.h:416-432 | the fifteen adders of a round move the ones of sixteen vectors into the weighted partial vectors |
| `PopcountHarleySeal.Rounds` | oss/libpopcnt/libpopcnt.h:401-440 | the loop keeps 16·counts + 8·eights + 4·fours + 2·twos + ones equal to the ones consumed, and the end folds them |
| `PopcountHarleySeal.HarleySeal` | oss/libpopcnt/libpopcnt.h:401-563 | for every array of vectors, both vector loops return the number of ones modulo 64 bits |
| `PopcountHarleySeal.Unrolled` | oss/libpopcnt/libpopcnt.h:214-232 | the unrolled word loops return the number of ones modulo 64 bits |
| `PopcountDriver.AlignBytes` | oss/libpopcnt/libpopcnt.h:454-460 | the unguarded byte loop reaches a word boundary, takes at most seven bytes and counts them |
| `PopcountDriver.AlignWords` | oss/libpopcnt/libpopcnt.h:461-467 | the unguarded word loop reaches a vector boundary before a whole vector is used up |
| `PopcountDriver.Align8` | oss/libpopcnt/libpopcnt.h:587-594 | the guarded loop reaches a word boundary or the end, counting what it passes |
| `PopcountDriver.VectorStage` | oss/libpopcnt/libpopcnt.h:647-671 | from the threshold on, a vector stage counts all but less than one vector and never takes the size below zero |
| `PopcountDriver.Popcnt` | oss/libpopcnt/libpopcnt.h:621-704 | for every address, length and set of processor features, the count of exactly the given bytes: modulo 64 bits, and exact below 2^61 bytes |
| `PopcountNeon.ColumnsPop` | oss/libpopcnt/libpopcnt.h:757-763 | the four-way load loses no byte |
| `PopcountNeon.Chunk` | oss/libpopcnt/libpopcnt.h:740-764 | up to thirty-one blocks are summed with no byte lane above 248 |
| `PopcountNeon.Fold` | oss/libpopcnt/libpopcnt.h:721-724 | the widening sums carry all sixteen lanes into the two 64-bit ones |
| `PopcountNeon.Popcnt` | oss/libpopcnt/libpopcnt.h:731-799 | for every address and length, the count of exactly the given bytes: modulo 64 bits, and exact below 2^61 bytes |
| `BitBlocks.IndexIsQuotient` | oss/dynamic_bitset/dynamic_bitset.hpp:1430-1442 | the block and bit of a position are its quotient and remainder by the width |
| `BitBlocks.MaskBits` | oss/dynamic_bitset/dynamic_bitset.hpp:1451-1466 | the range mask has exactly the bits from first to last |
| `BitsetOrder.LowOnesNumber` | oss/dynamic_bitset/dynamic_bitset.hpp:1451-1466 | a power of two less one has exactly the low bits set |
| `BitsetValues.ConsistentShows` | oss/dynamic_bitset/dynamic_bitset.hpp:1792-1813 | the library's consistency check means that everything past the size reads as zero |
| `BitsetValues.ShowsConsistent` | oss/dynamic_bitset/dynamic_bitset.hpp:1792-1813 | and the converse, with the contents |
| `BitsetValues.SanitizedShows` | oss/dynamic_bitset/dynamic_bitset.hpp:1782-1790 | sanitizing clears what lies past the size and nothing else |
| `BitsetShifts.LeftAt` | oss/dynamic_bitset/dynamic_bitset.hpp:1710-1745 | the shifted blocks hold at every position the bit from that far below, or zero |
| `BitsetShifts.RightAt` | oss/dynamic_bitset/dynamic_bitset.hpp:1747-1780 | the shifted blocks hold at every position the bit from that far above, or zero |
| `DynamicBitset.Bitset.ApplyLeftShift` | oss/dynamic_bitset/dynamic_bitset.hpp:1710-1745 | the in-place loops read every block before overwriting it |
| `DynamicBitset.Bitset.ApplyRightShift` | oss/dynamic_bitset/dynamic_bitset.hpp:1747-1780 | the same towards lower positions |
| `DynamicBitset.Bitset.ShiftLeft` | oss/dynamic_bitset/dynamic_bitset.hpp:777-794 | for every shift: bits move up, zeros come in, length kept, unused bits zero |
| `DynamicBitset.Bitset.ShiftRight` | oss/dynamic_bitset/dynamic_bitset.hpp:796-812 | for every shift: bits move down, zeros come in, length kept, unused bits zero |
| `DynamicBitset.Bitset.Sanitize` | oss/dynamic_bitset/dynamic_bitset.hpp:1782-1790 | restores the consistency check for the bits below the size |
| `DynamicBitset.Bitset.Resize` | oss/dynamic_bitset/dynamic_bitset.hpp:569-599 | cuts or extends with the given value, inside the old last block too |
| `DynamicBitset.Bitset.PushBack` | oss/dynamic_bitset/dynamic_bitset.hpp:607-625 | one bit more at the end |
| `DynamicBitset.Bitset.PopBack` | oss/dynamic_bitset/dynamic_bitset.hpp:627-647 | one bit less at the end, if any |
| `DynamicBitset.Bitset.AppendBlock` | oss/dynamic_bitset/dynamic_bitset.hpp:649-665 | a block's bits follow the contents, straddling two blocks if need be |
| `DynamicBitset.Bitset.AppendBlocks` | oss/dynamic_bitset/dynamic_bitset.hpp:678-724 | the bits of all blocks follow the contents in order |
| `DynamicBitset.Bitset.EditRange` | oss/dynamic_bitset/dynamic_bitset.hpp:836-881 | set, reset and flip of a range change exactly its bits |
| `DynamicBitset.Bitset.EditAll` | oss/dynamic_bitset/dynamic_bitset.hpp:902-908 | set, reset and flip of the whole change every bit and no unused one |
| `DynamicBitset.Bitset.EditOne` | oss/dynamic_bitset/dynamic_bitset.hpp:883-900 | set, reset and flip of one position change that bit alone |
| `DynamicBitset.Bitset.Combine` | oss/dynamic_bitset/dynamic_bitset.hpp:725-775 | and, or, exclusive or and difference with a bitset of the same size, itself included, bit by bit |
| `DynamicBitset.Bitset.All` | oss/dynamic_bitset/dynamic_bitset.hpp:1011-1045 | true if and only if every bit is set |
| `DynamicBitset.Bitset.Any` | oss/dynamic_bitset/dynamic_bitset.hpp:1047-1058 | true if and only if some bit is set |
| `DynamicBitset.Bitset.Count` | oss/dynamic_bitset/dynamic_bitset.hpp:1066-1104 | the number of set bits |
| `DynamicBitset.Bitset.FindFirst` | oss/dynamic_bitset/dynamic_bitset.hpp:1216-1228 | the least set position, or none |
| `DynamicBitset.Bitset.FindNext` | oss/dynamic_bitset/dynamic_bitset.hpp:1230-1259 | the least set position above the given one, or none, for any argument |
| `BitsetQueries.NextOnLeast` | oss/dynamic_bitset/dynamic_bitset.hpp:1216-1259 | the position searched for is set and none before it is; none is returned if and only if there is none |
| `DynamicBitset.Bitset.IterateBitsOn` | oss/dynamic_bitset/dynamic_bitset.hpp:1305-1345 | terminates and visits the set positions in order, up to the first one the callback refuses; if it refuses none, exactly the set positions, ascending, as many as the count |
| `BitsetQueries.OnPositionsExact` | oss/dynamic_bitset/dynamic_bitset.hpp:1305-1345 | those are exactly the set positions, ascending, each once, and as many as the count |
| `BitsetOrder.Less` | oss/dynamic_bitset/dynamic_bitset.hpp:1354-1417 | for two bitsets of any lengths: less by number, then by length |
| `BitsetOrder.Equal` | oss/dynamic_bitset/dynamic_bitset.hpp:1347-1352 | equal sizes and blocks if and only if equal contents |
| `BitsetOrder.StrictTotalOrder` | oss/dynamic_bitset/dynamic_bitset.hpp:1354-1417 | that order is strict and total, with equality as its equivalence |
| `BitsetOrder.TopDecides` | oss/dynamic_bitset/dynamic_bitset.hpp:1366-1377 | the topmost differing block decides the numbers |
| `BitsetRuns.Run` | oss/dynamic_bitset/dynamic_bitset.hpp:569-991 | every finite run of resizing, pushing, popping, clearing, appending, updates of one bit, a range or all, set operators and shifts keeps the consistency check and follows the same run on a plain sequence |
| `IntervalTree.Build` | oss/interval_tree/IntervalTree.h:117-209 | for all buckets and depths: the intervals are conserved, every node is sound, the height is within the depth, construction terminates |
| `IntervalTree.PartConserves` | oss/interval_tree/IntervalTree.h:168-187 | the partition loses and doubles nothing |
| `IntervalTree.CenterSplits` | oss/interval_tree/IntervalTree.h:127-132 | both children get strictly fewer intervals |
| `IntervalTree.PartSorted` | oss/interval_tree/IntervalTree.h:133-141 | a part of a sorted list is sorted, so the assertion in the children holds |
| `IntervalTree.FindIsFilter` | oss/interval_tree/IntervalTree.h:213-282 | on every sound tree pruning loses nothing and visits nothing twice; what is looked for is said by `IntervalTree.BuiltTreeFinds` |
| `IntervalTree.BuiltTreeAnswers` | oss/interval_tree/IntervalTree.h:266-282 | for every input and query, overlapping and contained searches return exactly what a linear filter of the input returns |
| `IntervalTree.BuiltTreeFinds` | oss/interval_tree/IntervalTree.h:238-282 | an interval comes back, as often as it was put in, if and only if some point lies in it and in the closed range, or all its points lie in the range |
| `IntervalTree.PointQuery` | oss/interval_tree/IntervalTree.h:231-236 | a query for one point returns exactly the intervals that contain it, their ends included |
| `IntervalTree.SoundIsValid` | oss/interval_tree/IntervalTree.h:334-382 | the validity check accepts every sound tree, and what its extents are |
| `IntervalTree.ValidIff` | oss/interval_tree/IntervalTree.h:334-382 | what the validity check finds out about any tree, sound or not |
| `IntervalTree.LeftIsNotChecked` | oss/interval_tree/IntervalTree.h:348-366 | a tree with an interval on the wrong side of a centre that the check accepts |
| `IntervalTree.BuiltTreeIsValid` | oss/interval_tree/IntervalTree.h:208-208 | the assertion at the end of construction holds |
| `ArgumentQuoting.EscapeArgument` | src/host/ConsoleArguments.cpp:28-99 | the loop computes the quoted argument |
| `ArgumentQuoting.EscapeParses` | src/host/ConsoleArguments.cpp:28-99 | one quoted argument is read back unchanged by the rule of 2n and 2n+1 backslashes, whatever follows a blank |
| `ArgumentQuoting.SplitJoin` | src/host/ConsoleArguments.cpp:352-361 | splitting the joined line gives back the arguments, for every list of arguments |
| `QuotingRules.EscapeKeepsIff` | src/host/ConsoleArguments.cpp:28-99 | an argument is left alone if and only if it is not empty and has no space, tab or quote |
| `QuotingRules.EscapeWraps` | src/host/ConsoleArguments.cpp:28-99 | spaces and tabs are protected by a pair of quotes |
| `QuotingRules.EvenRule` | src/host/ConsoleArguments.cpp:28-99 | 2n backslashes and a quote are n backslashes and a change of quoting |
| `QuotingRules.OddRule` | src/host/ConsoleArguments.cpp:28-99 | 2n+1 backslashes and a quote are n backslashes and a quote |
| `QuotingRules.WordsSplit` | src/host/ConsoleArguments.cpp:352-361 | plain words are split at spaces and tabs and nowhere else |
| `ConsoleArguments.SuccessConsumesAll` | src/host/ConsoleArguments.cpp:538-544 | a successful run has no tokens left, so the fail-fast is never reached |
| `ConsoleArguments.ServerStaysConsistent` | src/host/ConsoleArguments.cpp:410-437 | a server handle is to be created if and only if none was given, after failing runs too |
| `ConsoleArguments.ServerGivenOnce` | src/host/ConsoleArguments.cpp:296-322 | a successful run saw at most one server handle, and one exactly if it set one |
| `ConsoleArguments.ClientLineSplits` | src/host/ConsoleArguments.cpp:339-365 | the stored client command line splits into exactly the client's tokens |
| `ConsoleArguments.Arguments.GetArgumentValue` | src/host/ConsoleArguments.cpp:189-204 | the value after the option, both consumed, or nothing changed |
| `ConsoleArguments.Arguments.GetNumber` | src/host/ConsoleArguments.cpp:250-285 | accepted exactly if all of the text is a number not above the 16-bit maximum; then its low 16 bits |
| `ConsoleArguments.Arguments.ParseHandleArg` | src/host/ConsoleArguments.cpp:296-322 | a prefixed number other than zero, and only for a handle not yet set |
| `ConsoleArguments.Arguments.GetClientCommandline` | src/host/ConsoleArguments.cpp:339-365 | everything from the index on is joined and consumed |
| `ConsoleArguments.Arguments.ParseToken` | src/host/ConsoleArguments.cpp:404-536 | one turn of the loop does what its option says, at index zero; what the options say is in `ConsoleOptions` |
| `ConsoleArguments.Arguments.ParseCommandline` | src/host/ConsoleArguments.cpp:376-547 | terminates with the settings of the described parse, which `ConsoleOptions.OptionsDecide` gives setting by setting; the server flag stays consistent and the client line splits back |
| `ConsoleOptions.Decompose` | src/host/ConsoleArguments.cpp:404-536 | every command line is a list of options by their texts and a rest that starts with none |
| `ConsoleOptions.AcceptedIff` | src/host/ConsoleArguments.cpp:404-547 | it is accepted if and only if every value is there and is what its option asks for, and each handle is given at most once |
| `ConsoleOptions.OptionsDecide` | src/host/ConsoleArguments.cpp:404-536 | width, height, mode, both handles, the seven switches and the client line at the end, each by its own option |
| `ConsoleOptions.FreshOptionsDecide` | src/host/ConsoleArguments.cpp:101-123 | for a new object: a switch is on if and only if it is given, a server handle is to be created if and only if none is given, and what no option names is zero or empty |
| `IniSections.CloseDown` | dep/CLI11/CLI11.hpp:9069-9073 | repeated closes shorten the open path one segment at a time |
| `IniSections.Reuse` | dep/CLI11/CLI11.hpp:9075-9105 | after a close, what the new section shares stays open and the rest is closed and opened |
| `IniSections.CheckParentSegments` | dep/CLI11/CLI11.hpp:9062-9121 | after it, exactly the prefixes of the new section are open, the last event opens it, and no input was touched |
| `IniSections.ReadHeader` | dep/CLI11/CLI11.hpp:9142-9166 | a header keeps the events in step with the place in the file |
| `IniSections.ReadKey` | dep/CLI11/CLI11.hpp:9215-9227 | a key adds its inputs in its own section, merged with an equal key before it |
| `IniSections.FromConfig` | dep/CLI11/CLI11.hpp:9124-9243 | for every file: after each header the section was just opened, in order; while no key is read with segments left open, exactly the prefixes of its path are open then and every input comes out in exactly its section; all events nest and close if and only if that holds to the end; all inputs are conserved in order, and equal keys in a row are one entry |
| `IniSections.ReturnLeavesOpen` | dep/CLI11/CLI11.hpp:9157-9160 | any section header followed by a return to the default section leaves all its segments but the last open |
| `IniSections.NoReturnIsSafe` | dep/CLI11/CLI11.hpp:9157-9160 | files that never return to the default section are among them |
| `IniSections.ReturnExample` | dep/CLI11/CLI11.hpp:9157-9160 | a file of two headers that is not, and whose events leave the outer segment open |
| `IniNames.SegmentsJoin` | dep/CLI11/CLI11.hpp:9030-9060 | the path of a section is its text cut at every dot, up to one at the end, with one pair of quotes taken off each segment |
| `IniNames.PlainSegmentsJoin` | dep/CLI11/CLI11.hpp:9030-9060 | without quotes, joining the path with dots gives the section back |
| `IniNames.PathIsSection` | dep/CLI11/CLI11.hpp:9030-9060 | every path, written with dots, is read as that path |
| `IniNames.KeyJoins` | dep/CLI11/CLI11.hpp:9043-9051 | a key with dots is its path and its name, in the same way |
| `IniNames.DefaultLetters` | dep/CLI11/CLI11.hpp:9033-9033 | the default section by its letters, in either case |
| `IniNames.LineKinds` | dep/CLI11/CLI11.hpp:9137-9176 | which lines are headers, comments and keys |
| `IniNames.OpenInTurn` | dep/CLI11/CLI11.hpp:9124-9243 | for every list of paths, the file of their headers opens exactly each path in turn and closes everything |
| `CommandListPopup.ScrollKeeps` | src/host/CommandListPopup.cpp:478-499 | every move of the selection keeps it in the window |
| `CommandListPopup.ScrollMoves` | src/host/CommandListPopup.cpp:478-499 | the last line stays while the target is in the window, and otherwise goes as far as the selection |
| `CommandListPopup.EndLosesWindow` | src/host/CommandListPopup.cpp:491-499 | for larger sizes End from the top loses the window |
| `CommandListPopup.WindowIffFits` | src/host/CommandListPopup.cpp:450-512 | all moves keep the window if and only if the sizes fit |
| `CommandListPopup.EndSelectsLast` | src/host/CommandListPopup.cpp:108-111 | End selects the last command if and only if the sum fits 16 bits |
| `CommandListPopup.HomeSelectsFirst` | src/host/CommandListPopup.cpp:112-115 | Home selects the first command |
| `CommandListPopup.PageMoves` | src/host/CommandListPopup.cpp:116-121 | a page up stops at the top; a page down stops at the bottom, or goes to the top once the sum does not fit 16 bits |
| `CommandListPopup.BottomIs` | src/host/CommandListPopup.cpp:138-148 | a new layout ends with the last command if that shows the selection, and otherwise begins as early as it can |
| `CommandListPopup.RemovedKeeps` | src/host/CommandListPopup.cpp:150-173 | a deletion takes out the selected command alone and leaves the selection in the window, for all sizes |
| `CommandListPopup.SwapKeeps` | src/host/CommandListPopup.cpp:179-217 | a swap exchanges two neighbours and nothing else, and the selection follows |
| `CommandListPopup.KeySelects` | src/host/CommandListPopup.cpp:88-123 | where each key takes the selection, while no sum leaves the 16 bits |
| `CommandListPopup.KeyKeeps` | src/host/CommandListPopup.cpp:62-136 | every key keeps the selection among the commands, and in the window if the sizes fit; only Delete takes out a command, and none appears |
| `CommandListPopup.KeysKeep` | src/host/CommandListPopup.cpp:286-328 | the same over every run of keys, each deletion taking out one command |
| `CommandListPopup.Popup.constructor` | src/host/CommandListPopup.cpp:53-60 | the popup opens with the selection in the window |
| `CommandListPopup.Popup.SetBottomIndex` | src/host/CommandListPopup.cpp:138-148 | puts the selection in the window |
| `CommandListPopup.Popup.Update` | src/host/CommandListPopup.cpp:450-512 | for all sizes: moves to the target with the described last line, and keeps the window if the sizes fit |
| `CommandListPopup.Popup.DeleteSelection` | src/host/CommandListPopup.cpp:150-173 | removes exactly the selected command, keeps the window, closes when none is left |
| `CommandListPopup.Popup.MoveUp` | src/host/CommandListPopup.cpp:179-195 | permutes the history, the selection follows the moved command, and no other command moves |
| `CommandListPopup.Popup.MoveDown` | src/host/CommandListPopup.cpp:201-217 | permutes the history, the selection follows the moved command, and no other command moves |
| `CommandListPopup.Popup.FindMatchingCommand` | src/host/history.cpp:504-553 | finds the nearest earlier match going round, if and only if there is a match |
| `CommandListPopup.Popup.CycleToMatch` | src/host/CommandListPopup.cpp:269-279 | selects the nearest earlier match if there is one |
| `CommandListPopup.Popup.HandleKey` | src/host/CommandListPopup.cpp:62-136 | each key does what its function says; Home reaches the first command, End the last exactly if the sum fits, and the popup closes exactly with the last command |
| `CommandListPopup.Popup.HandleKeys` | src/host/CommandListPopup.cpp:62-136 | every run of keys follows the function of one key until the popup closes, which it does exactly if there are as many deletions as commands; no command appears or is doubled, and the window is kept if the sizes fit |
| `CommandListPopup.FittingPrefix` | src/host/CommandListPopup.cpp:388-416 | the longest prefix of a command that fits the columns |
| `BoundedQueue.QueueIsBounded` | samples/ReadConsoleInputStream/ConcurrentBoundedQueue.cs:36-51 | over every interleaving the count is within the bound and the contents are the newest items in order |
| `BoundedQueue.EnqueuesWhatWasCalled` | samples/ReadConsoleInputStream/ConcurrentBoundedQueue.cs:36-51 | what is enqueued is what the calls were made with, in the order in which they enqueue |
| `BoundedQueue.KeepsTheNewest` | samples/ReadConsoleInputStream/ConcurrentBoundedQueue.cs:36-51 | after every call of a single producer the queue holds the newest items, as many as its capacity allows |
| `BoundedQueue.SingleProducerIsBounded` | samples/ReadConsoleInputStream/ConcurrentBoundedQueue.cs:36-51 | a single producer never passes the capacity |
| `BoundedQueue.BoundIsReached` | samples/ReadConsoleInputStream/ConcurrentBoundedQueue.cs:36-51 | from every start within the capacity some interleaving reaches the bound exactly |
| `BoundedQueue.NeverOverIff` | samples/ReadConsoleInputStream/ConcurrentBoundedQueue.cs:36-51 | from every start within the capacity, no interleaving passes it if and only if there is at most one producer or no room at all |
| `BoundedQueue.StepLock` | samples/ReadConsoleInputStream/ConcurrentBoundedQueue.cs:41-47 | at most one producer is inside the lock |
| `BoundedQueue.SomeCallProceeds` | samples/ReadConsoleInputStream/ConcurrentBoundedQueue.cs:36-51 | whenever a call is under way, some producer can take its next step |

## Left out

- JSON reals: conversion of a text that is no 64-bit integer to a double, and back, are parameters of the reader and writer; the identity is proved for trees without reals.
- JSON comments: where the reader attaches them, and the offsets and messages of errors; errors are kept as kinds, in order.
- JSON values are filled in place in the source; here the stack of values under construction holds values that are stored in their parent when complete.
- JsonAccepted.AcceptedIff: speaks of readers that refuse extra text and do not supply nulls; without the first, `JsonAccepted.ValueInverse` says what stands in front of the extra text.
- JSON arrays with gaps and array indexes beyond 32 bits.
- JsonRoundTrip.ParseWritten: the trees it does not speak of are those of `JsonRefusals.ReadUnwritable`, `JsonIdentity.LoneNullIsLost`, `JsonIdentity.NullIsLost` and `JsonIdentity.EmptyDocument`.
- The deprecated JSON reader, styled writers and `Path`: they repeat the core.
- Classification of printable characters follows the C locale.
- Vector instructions, inline assembly and processor identification: given as functions on bits, and as arbitrary flags.
- The driver for processors that are neither x86 nor ARM, which is a part of the ARM one.
- Bitset streams, strings, allocators, references and construction from numbers: thin wrappers or single loops.
- Interval tree scalars are unbounded integers: overflow of the sum in the centre, and floating point, are not modelled. The visits are functions that return what the callbacks would see.
- IntervalTree.Build: an empty list with an empty bucket and no extent reads a front element that is not there in the source, and is excluded.
- Splitting the command line of the console host itself, number conversion and handle validity are parameters.
- Quoting rules of the program name, which is not part of the client's tokens.
- CLI11 apart from the sections: options, validators, value splitting, trimming of lines; how a key line is read is a parameter.
- IniSections.FromConfig: keys named like the events are excluded.
- Popup drawing and the other popups; the history's memory of the last displayed command.
- The alignment of the queue's capacity to a power of two uses floating point and is a parameter.
