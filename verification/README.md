# KBEngine algorithms, modelled and verified in Dafny

This project models the parts of KBEngine that hold real algorithms and proves what they are for.
`dafny verify dfyconfig.toml` checks it.

- **SHA-1** (`Sha1Spec.dfy`, `Sha1.dfy`, `Sha1Example.dfy`): the incremental object against FIPS 180-4, for every way
  of cutting a message into calls, and the digest of "abc".
- **Number formatting** (`RadixDigits.dfy`, `DigitCount.dfy`, `DecimalPrinters.dfy`, `OutputBuffer.dfy`,
  `IntegerField.dfy`, `IntegerWriter.dfy`, `ErrorCode.dfy`, `NumberParser.dfy`): digit counting, the three decimal
  printers, the growing buffer, the layout of an integer field, and the parser that reads numbers back. Pointers into
  the output are an array and an index, so a pointer kept while the buffer moves on is visible as such.
- **Format strings** (`ArgList.dfy`, `FormatArgs.dfy`, `BraceFormat.dfy`, `ArgumentDiscipline.dfy`,
  `FormatPieces.dfy`, `FormatValues.dfy`, `PrintfFormat.dfy`, `PrintfPieces.dfy`, `PrintfValues.dfy`,
  `PrintfDiscipline.dfy`, `FormatLooks.dfy`, `PrintfLooks.dfy`, `FormatErrors.dfy`): the brace formatter and the printf
  formatter with their specifiers, conversions and argument references, each proved against a grammar.
- **Base64** (`Base64Alphabet.dfy`, `Base64.dfy`): both loops against RFC 4648.
- **Event pollers** (`EventTables.dfy`, `Dispatch.dfy`, `Registrations.dfy`, `SelectPoller.dfy`, `EpollPoller.dfy`,
  `Pollers.dfy`): two pollers with different cached indexes over the same handler tables, and dispatch to handlers that
  change the tables.
- **Error reporter** (`ErrorReporter.dfy`, `ErrorRuns.dfy`, `ErrorSpacing.dfy`): the rate-limited log with deferred
  erasure, and how far apart its messages are.
- **Watcher tree** (`WatcherNames.dfy`, `Watchers.dfy`): a tree of directories on the heap against a flat map, with its
  two ways of walking a path.

`Collections.dfy` and `MachineWords.dfy` hold what several of them share. Classes keep the source's fields; each method
is proved against a function on values, and the properties over whole runs are lemmas about those functions. Results of
system calls, the clock, the order in which maps are iterated and the behaviour of handlers are parameters, and the
theorems hold for all of them.

## What the code does that one would not expect

The members named state each of these, where it has a condition with the exact one.

- `write_int` loses digits when a left-aligned number has added zeros and the fill behind it makes the buffer move
  (`IntegerWriter.MisplacedExactly`, `DigitsLost`). The reservation at `src/lib/common/format.h:1704` asks for the width
  and not for the size and the width. The brace formatter cannot reach this
  (`FormatValues.BraceFieldsAreNotMisplaced`), the printf formatter can, with the conversions of
  `PrintfValues.PrintfMisplacedExactly`.
- The printf formatter prints a negative int with a long conversion as its 32-bit word
  (`PrintfPieces.LongKeepsValueExactly`, `PrintfValues.LongOfMinusOne`), and an argument of type char
  twice, as number and as character, exactly when the length is L and the letter is not c
  (`PrintfValues.WrittenTwiceExactly`, `CharPrintedTwice`).
- The printf formatter fills before the sign when both the zero flag and a precision add zeros
  (`PrintfLooks.ZeroBeforeSignExactly`, `ZeroBeforeSign`).
- `parse_nonnegative_int` reads some numbers above INT_MAX as smaller ones: below 10^10 those of two ranges, and more
  with more digits (`NumberParser.ParserRightExactly`, `MisreadBelowTenDigits`, `MisreadBeyondTenDigits`).
- The assertion at the end of `format_error_code` fails for one length of message with a large negative code, because
  the estimate counts the digits of the unsigned code and not the sign (`ErrorCode.TextFitsExactly`, `TextTooLong`).
- `"{:}<"` takes its alignment from behind the closing brace (`FormatPieces.EmptySpecifier`).
- The two pollers disagree on some calls, and exactly on these (`EventTables.StepsAgreeExactly`).
- The select poller returns not the number of ready descriptors but the part of it left when the dispatch ends, zero
  after a full pass and never the whole unless nothing is ready (`SelectPoller.SelectPoller.ProcessPendingEvents`).
- A first error message can follow a repeat at once (`ErrorRuns.FirstMayFollowAtOnce`), exactly when a late sweep
  printed the repeat (`ErrorSpacing.FirstIsUnspacedExactly`).
- A watcher added at a path of a single part can be neither fetched nor removed (`Watchers.WatcherPaths.GetWatcher`,
  `DelWatcher`).
- The recursive watcher walk leaves the iterative one on a path with more slashes than non-empty parts, such as
  "/a//b" (`WatcherNames.WalkFollowsSplitExactly`); a watcher added at such a path is not found at it
  (`WatcherNames.AddedWhereSplitExactly`).

## Model

| member | source | states |
|---|---|---|
| Sha1.Sha1.constructor | src/lib/common/sha1.cpp:19-22 | A new object is ready for the empty message. |
| Sha1.Sha1.Reset | src/lib/common/sha1.cpp:60-74 | Whatever the object has been through, it is ready for the empty message again, with the initial hash value of FIPS 180-4 section 5.3.1. |
| Sha1.Sha1.Input | src/lib/common/sha1.cpp:135-172 | One call takes the object from the message so far to that message with the new octets behind it; after a digest, or when the message reaches 2^61 octets, the object is corrupted and stays so. |
| Sha1.Sha1.InputOctet | src/lib/common/sha1.cpp:150-171 | One round of the input loop keeps the streaming invariant: the chain value is that of all complete blocks, the block buffer holds the rest, and the two length words hold eight times the length. |
| Sha1.Sha1.CountOctet | src/lib/common/sha1.cpp:153-163 | The two 32-bit length words carry together, and the wrap that corrupts the object happens exactly at 2^61 octets. |
| Sha1.Sha1.Result | src/lib/common/sha1.cpp:94-115 | The digest handed out is the FIPS 180-4 SHA-1 of the whole message, a second call gives the same, a corrupted object gives none and leaves the caller's array alone. |
| Sha1.Sha1.ProcessMessageBlock | src/lib/common/sha1.cpp:371-458 | In-place compression of the block buffer into H is the compression function of FIPS 180-4 section 6.1.2. |
| Sha1.Sha1.ExpandBlock | src/lib/common/sha1.cpp:384-398 | The 80-word array is the message schedule of the block. |
| Sha1.Sha1.ChoiceRounds | src/lib/common/sha1.cpp:406-415 | Rounds 0 to 19, with the program's own form of Choice, are the standard's. |
| Sha1.Sha1.ParityRounds | src/lib/common/sha1.cpp:417-426 | Rounds 20 to 39, with Parity, are the standard's. |
| Sha1.Sha1.MajorityRounds | src/lib/common/sha1.cpp:428-438 | Rounds 40 to 59, with the program's Majority, are the standard's. |
| Sha1.Sha1.LastRounds | src/lib/common/sha1.cpp:440-449 | Rounds 60 to 79, with Parity again, are the standard's. |
| Sha1.MajorityAgrees | src/lib/common/sha1.cpp:430-431 | The program's majority expression equals the standard's. |
| Sha1.Sha1.PadMessage | src/lib/common/sha1.cpp:481-526 | On either padding path the chain value becomes the SHA-1 of the message. |
| Sha1.Sha1.PadToLength | src/lib/common/sha1.cpp:488-511 | After the marker and the zeros of the one-block or the two-block branch only the length field and one compression are missing. |
| Sha1.Sha1.StoreLength | src/lib/common/sha1.cpp:513-523 | The eight stores write the 64-bit big-endian bit length. |
| Sha1.PaddingInOneBlock | src/lib/common/sha1.cpp:503-511 | With at most 55 octets waiting, marker, zeros and length fill exactly one block. |
| Sha1.PaddingInTwoBlocks | src/lib/common/sha1.cpp:488-502 | With 56 to 63 octets waiting, the padding is the rest of one block and a second one. |
| Sha1Spec.PadInjective | src/lib/common/sha1.cpp:481-526 | Different messages have different padded messages (FIPS 180-4 section 5.1.1), so the reference padding loses nothing. |
| Sha1.AnyCutIsOneInput | src/lib/common/sha1.cpp:135-172 | Feeding a message in pieces, cut in any way, leaves the object where one call with the whole would. |
| Sha1.HashChunks | src/lib/common/sha1.cpp:94-172 | For every list of pieces with fewer than 2^61 octets in all, the object returns the SHA-1 of the concatenation, twice; from 2^61 octets on it returns none. |
| Sha1Example.DigestOfAbc | src/lib/common/sha1.cpp:371-526 | The digest of "abc" is that of RFC 3174 section 7.3, proved in stages over the 80 words and the 80 rounds. |
| Sha1Spec.ParityIsOdd | src/lib/common/sha1.cpp:419-419 | On any set of bits: where x and y agree Parity is z, and where they differ it is not z. |
| Sha1Spec.ChSelects | src/lib/common/sha1.cpp:408-408 | Where x is set Ch is y, and where it is clear z. |
| Sha1Spec.MajIsTwoOfThree | src/lib/common/sha1.cpp:430-431 | Where two of the three agree Maj is what they are. |
| Sha1Spec.LengthFieldReadsBack | src/lib/common/sha1.cpp:513-523 | The eight octets at the end of the padding are the bit length in base 256. |
| DigitCount.CountDigits64IsLength | src/lib/common/format.h:517-522 | (bit length * 1233 >> 12) corrected by the power table is the length of the decimal digits, for every 64-bit value, with the table index in range. |
| DigitCount.CountDigits32IsLength | src/lib/common/format.h:525-528 | The 32-bit form likewise. |
| DigitCount.TableIsPowers | src/lib/common/format.cpp:395-414 | Entry t of the table, from 1 on, is 10^t. |
| DigitCount.CountDigitsFallback | src/lib/common/format.h:532-545 | The divide-by-10000 loop returns the length of the decimal digits, for every number. |
| DigitCount.AllFormsAgree | src/lib/common/format.h:514-546 | The bit trick in both widths and the fallback loop give one result. |
| DecimalPrinters.FormatDecimal | src/lib/common/format.h:550-571 | With num_digits the length of the value, the cells of the buffer become its decimal digits, and the ghost list of writes shows each cell written exactly once and no other. |
| DecimalPrinters.TablePair | src/lib/common/format.cpp:388-393 | Entries 2i and 2i+1 of the digit-pair table are the two digits of i. |
| DecimalPrinters.FormatDecimalAt | src/lib/common/format.h:2283-2303 | fmt::format_decimal(char*&): writes the signed decimal text at the pointer, moves the pointer right behind it and touches nothing else, for every value of each width including the most negative. |
| DecimalPrinters.AbsValueIsMagnitude | src/lib/common/format.h:1755-1762 | The wrapping negation of a value cast to its unsigned type is its absolute value. |
| DecimalPrinters.FormatInt.FormatBackwards | src/lib/common/format.h:2214-2234 | Written from the end towards the front the digits stay inside the buffer and are the decimal digits. |
| DecimalPrinters.FormatInt.Signed | src/lib/common/format.h:2236-2249 | The object holds the signed decimal text of every signed 64-bit value, in its own 22 cells. |
| DecimalPrinters.FormatInt.Unsigned | src/lib/common/format.h:2250-2252 | Likewise for every unsigned 64-bit value. |
| IntegerWriter.PrintersAgree | src/lib/common/format.h:1571-1573 | FormatInt, fmt::format_decimal and write_int with the default specifier print the same text for every signed and unsigned 64-bit value. |
| OutputBuffer.MemoryBuffer.Grow | src/lib/common/format.h:359-376 | Growing keeps the contents, ends with the requested capacity or half as much again, and copies exactly size elements into fresh storage. |
| OutputBuffer.MemoryBuffer.Reserve | src/lib/common/format.h:272-276 | Reserving changes neither size nor contents and secures the capacity. |
| OutputBuffer.MemoryBuffer.Resize | src/lib/common/format.h:265-270 | Resizing keeps the common prefix of the contents and size <= capacity. |
| OutputBuffer.MemoryBuffer.PushBack | src/lib/common/format.h:280-284 | The contents get one element more at the end; the cost is the one charged by Appended. |
| OutputBuffer.MemoryBuffer.Append | src/lib/common/format.h:293-300 | The contents become the old ones and the data; the cost is the one charged by Appended. |
| OutputBuffer.GrowsByHalf | src/lib/common/format.h:359-366 | A full buffer grows by half, or to what is needed when that is more: from 500 for 501 to 750, for 2000 to 2000. |
| OutputBuffer.CopyingIsLinear | src/lib/common/format.h:359-376 | Over every run of push_back and append from an empty 500-element buffer, grow copies at most four times the final size in all. |
| IntegerField.FieldLength | src/lib/common/format.h:1686-1747 | The field has max(width, prefix + max(digits, precision)) characters; an octal prefix counts as one of the added zeros. |
| IntegerField.FieldText | src/lib/common/format.h:1686-1747 | Where everything lies: left-aligned, prefix, added zeros and digits come before the fill, right-aligned or by default behind it; without added zeros a numeric alignment has the fill between prefix and digits and a centred field half of it, rounded down, on the left; added zeros absorb an octal zero. |
| IntegerField.FieldWithoutZeros | src/lib/common/format.h:1718-1747 | Without added zeros: prefix + digits + fill for left, fill + prefix + digits for right and default, prefix + fill + digits for numeric, half the fill on either side for centre. |
| IntegerField.PrefixText | src/lib/common/format.h:1749-1816 | The sign, and 0x, 0X, 0b, 0B or 0 with the hash flag. |
| IntegerField.DigitsText | src/lib/common/format.h:1764-1826 | The digits are those of the absolute value in the radix and the case of the type letter. |
| IntegerField.FieldDigitsReadBack | src/lib/common/format.h:1749-1829 | The zeros and digits of every field, read back in its radix, are the absolute value, for d, x, X, b, B and o and every width, precision, alignment and flag. |
| IntegerField.FieldReadsBack | src/lib/common/format.h:1749-1829 | A field with blank fill and without the # flag, its blanks dropped and the rest read in its radix, is the value with its sign. |
| IntegerWriter.BasicWriter.FillPadding | src/lib/common/format.h:1671-1684 | Centred content gets half of the padding (rounded down) on the left and the rest on the right; the returned position is where the content goes. |
| IntegerWriter.BasicWriter.PrepareIntBuffer | src/lib/common/format.h:1686-1747 | All cells but the digits' are laid out as the field asks in every branch, and the returned pointer is the last digit's cell, stale exactly when storage was replaced after it was taken. |
| IntegerWriter.BasicWriter.PrepareWithZeros | src/lib/common/format.h:1696-1717 | The branch that adds zeros: number first and fill behind it, or fill first, by alignment. |
| IntegerWriter.BasicWriter.WriteDigits | src/lib/common/format.h:1764-1826 | Written backwards from the pointer, exactly numDigits cells become the digits of the radix. |
| IntegerWriter.BasicWriter.WriteInt | src/lib/common/format.h:1749-1829 | Appends exactly the field of the value, and nothing for an unknown type; in the one misplaced case the cells of the digits keep what they held. |
| IntegerWriter.BasicWriter.WriteStr | src/lib/common/format.h:1648-1669 | Appends exactly the string's field. |
| IntegerWriter.MisplacedExactly | src/lib/common/format.h:1696-1717 | Exactly when the digits go to storage the buffer has left: left alignment, added zeros, fill to add, and a whole field beyond what the reservation and the number have secured. |
| IntegerWriter.DigitsLost | src/lib/common/format.h:1704-1717 | A run in which that happens, with the text it leaves in the output. |
| IntegerWriter.DefaultFieldIsDecimal | src/lib/common/format.h:1764-1771 | The default field of a value is its signed decimal text and is never misplaced. |
| RadixDigits.ReadBack | src/lib/common/format.h:1764-1826 | The digits of a number in a radix, read back, are the number. |
| ErrorCode.FormatErrorCode | src/lib/common/format.cpp:164-180 | The writer holds the message (if it passes the size test), the separator and the signed code. |
| ErrorCode.ErrorTextSays | src/lib/common/format.cpp:164-180 | For messages of up to 482 characters the message, ": error " and the signed code; for more than 491 the message is dropped. |
| ErrorCode.TextTooLong | src/lib/common/format.cpp:170-179 | A failing input: code -1000000000 with 482 characters gives 501. |
| ErrorCode.TextFitsExactly | src/lib/common/format.cpp:170-179 | The text fits 500 characters, as the final assertion claims, exactly when the code is not at most -1000000000 with a message of 482 characters. |
| NumberParser.ParseNonnegativeInt | src/lib/common/format.cpp:199-217 | The loop is the character-by-character reading with a 32-bit word and the wrap test. |
| NumberParser.ParserIsCongruent | src/lib/common/format.cpp:199-217 | For digit strings of any length, a returned number is the written one modulo 2^32, at most INT_MAX, and all digits have been read. |
| NumberParser.ParserRightExactly | src/lib/common/format.cpp:199-217 | For any number of digits the parser returns the number, or refuses exactly those above INT_MAX, if and only if the number is not one whose 32-bit wraps all go unnoticed, digit by digit, and end at most at INT_MAX. |
| NumberParser.MisreadBelowTenDigits | src/lib/common/format.cpp:205-215 | Below 10^10 those numbers are two ranges. |
| NumberParser.MisreadBeyondTenDigits | src/lib/common/format.cpp:205-215 | There are more of them with more digits: 47949672960 reads as 705032704, too. |
| NumberParser.ParserReadsPrinter | src/lib/common/format.cpp:199-217 | What the parser returns for the decimal text of any number at all, whatever surrounds it. |
| NumberParser.MisreadExample | src/lib/common/format.cpp:208-211 | One of the misread numbers: 5000000000 reads as 705032704. |
| NumberParser.ParserUndoesPrinter | src/lib/common/format.cpp:199-217 | Reading the decimal text of 0 to INT_MAX gives the number back and stops right behind it, whatever surrounds it. |
| ArgList.TypesReadBack | src/lib/common/format.h:921-938 | Up to sixteen non-zero type codes packed by make_type are read back in order by operator[], and every later index reads NONE. |
| ArgList.NextCode | src/lib/common/format.h:1256-1260 | Packing one more code in front moves every other one index on. |
| BraceFormat.BasicFormatter.NextArg | src/lib/common/format.cpp:631-636 | The next argument while none was named by number; an error from then on. |
| BraceFormat.BasicFormatter.GetArg | src/lib/common/format.cpp:638-646 | A named argument while none was taken automatically; the state then stays manual. |
| BraceFormat.BasicFormatter.ParseArgIndex | src/lib/common/format.cpp:611-621 | One argument reference with its errors. |
| BraceFormat.BasicFormatter.ParseAlignment | src/lib/common/format.cpp:898-930 | The two-step backwards look for an alignment, with its look behind a closing brace. |
| BraceFormat.BasicFormatter.ParseWidth | src/lib/common/format.cpp:955-967 | Width and zero flag. |
| BraceFormat.BasicFormatter.ParsePrecision | src/lib/common/format.cpp:969-1013 | A literal or nested precision and all of its errors. |
| BraceFormat.BasicFormatter.FormatField | src/lib/common/format.cpp:887-1027 | One replacement field: the specifier read, the closing brace required, the argument written with it. |
| BraceFormat.BasicFormatter.Format | src/lib/common/format.cpp:1029-1049 | For every format string the two-pointer loop appends exactly what the string means character by character and field by field, with the same error and the same argument references. |
| ArgumentDiscipline.AllAutomaticOrAllManual | src/lib/common/format.cpp:611-646 | In every successful run the k-th reference, nested precisions included, uses argument k, or all references are numbers; and every one names an argument that was passed. |
| ArgumentDiscipline.RunLeads | src/lib/common/format.cpp:631-646 | From any point of a run on, with any index state, the references continue the discipline. |
| FormatPieces.FormatMeansItsPieces | src/lib/common/format.cpp:887-1049 | A string written down from literals and fields formats to their meanings in order, each exactly once, and fails exactly when one of them has no meaning. |
| FormatPieces.SpecifierThere | src/lib/common/format.cpp:898-1018 | Reading a written specifier (alignment with or without a fill, sign, #, zero flag, width, literal or nested precision, type) gives back its parts, or an error exactly when the argument's type does not allow them. |
| FormatPieces.DoubledBracesAreText | src/lib/common/format.cpp:1034-1041 | Text with its braces doubled formats to itself and uses no argument. |
| FormatPieces.EmptySpecifier | src/lib/common/format.cpp:898-930 | "{:}" carries the alignment character that follows the field, if one does, although it is outside the field. |
| FormatValues.ValuesInText | src/lib/common/format.cpp:560-606 | Up to sixteen integers and strings formatted into texts with "{}" between them give the texts and, in turn, the decimal numbers and the strings as they are. |
| FormatValues.NumbersInText | src/lib/common/format.cpp:1029-1049 | In particular sixteen integers. |
| FormatValues.StringWritten | src/lib/common/format.h:1627-1669 | A string is never cut, and a wider field has it on the left by default, on the right or in the middle as asked. |
| FormatLooks.WideBrace | src/lib/common/format.cpp:898-967 | "{:<w}", "{:>w}" and "{:^w}" of an integer or a string: blanks behind, before and around it. |
| FormatLooks.ZeroBrace | src/lib/common/format.cpp:955-967 | "{:0w}" of an integer: zeros between its sign and its digits. |
| FormatLooks.LetterBrace | src/lib/common/format.cpp:1012-1018 | "{:x}", "{:X}", "{:o}", "{:b}", "{:B}" and "{:d}", with and without the hash flag. |
| FormatLooks.SignBrace | src/lib/common/format.cpp:932-950 | "{:+}", "{: }" and "{:-}" of a signed integer. |
| FormatErrors.UnmatchedBrace | src/lib/common/format.cpp:1042-1043 | The message for a closing brace alone; its neighbours give those of the other mistakes. |
| FormatValues.BraceFieldsAreNotMisplaced | src/lib/common/format.cpp:1009-1012 | Only floating-point brace fields have a precision, so write_int's misplaced case cannot be reached through this formatter, by integers, characters or pointers. |
| PrintfValues.PrintfMisplacedExactly | src/lib/common/format.cpp:743-819 | A conversion reaches write_int's misplaced case if and only if it has a minus flag or a negative width from an argument, no zero flag, a precision above the number of digits and a width above the number, and the field is beyond what the reservation and the number have secured. |
| PrintfValues.PrintfIsMisplaced | src/lib/common/format.cpp:743-819 | A witness: "%-20.5d" into a buffer of 490 characters. |
| PrintfValues.LongOfMinusOne | src/lib/common/format.cpp:282-320 | "%ld" of the int -1 prints 4294967295. |
| PrintfFormat.PrintfFormatter.TakeArg | src/lib/common/format.cpp:674-684 | The argument of a conversion, by number or the next one, with both switching errors, the range error and the error at the end of the string. |
| PrintfFormat.PrintfFormatter.ParseFlags | src/lib/common/format.cpp:648-672 | The flag loop; each flag sets its part of the specifier. |
| PrintfFormat.PrintfFormatter.ParseHeader | src/lib/common/format.cpp:686-718 | A number at the start is an argument number, a width, or zero flags and a width; a star takes the width from an argument and a negative one aligns to the left. |
| PrintfFormat.PrintfFormatter.ParsePrecision | src/lib/common/format.cpp:743-752 | A literal precision, one from an argument, or none. |
| PrintfFormat.PrintfFormatter.FormatConversion | src/lib/common/format.cpp:737-819 | One whole conversion: header, precision, argument, adjusted flags, length, type and converted value. |
| PrintfFormat.PrintfFormatter.Format | src/lib/common/format.cpp:720-885 | For every format string and argument list the loop appends exactly what the string means, with the same error. |
| PrintfPieces.ConversionThere | src/lib/common/format.cpp:648-811 | Reading a written conversion (argument number, flags, width, precision, length, type) gives its meaning: the specifier, the converted argument and the index state; or an error exactly when it has none at that index state. |
| PrintfPieces.PrintfMeansItsPieces | src/lib/common/format.cpp:720-885 | A string written down from literals and conversions formats successfully if and only if every piece has a meaning where it stands, and then to the meanings in order, each exactly once. |
| PrintfDiscipline.AllAutomaticOrAllManual | src/lib/common/format.cpp:674-757 | In every successful run of the printf formatter the k-th argument taken, star widths and precisions included, is argument k, or all references are numbers; and every one names an argument that was passed. |
| PrintfDiscipline.WrittenReferences | src/lib/common/format.cpp:686-757 | The references of a conversion written down from its parts: one for each star and the argument's own. |
| PrintfPieces.DoubledPercentsAreText | src/lib/common/format.cpp:726-733 | Text with its percent signs doubled formats to itself. |
| PrintfPieces.LongKeepsValueExactly | src/lib/common/format.cpp:282-320 | A 64-bit conversion keeps its argument's value if and only if, signed, the argument is no negative value of a narrower type and fits, or, unsigned, it is not negative. |
| PrintfPieces.ShortKeepsValueExactly | src/lib/common/format.cpp:282-320 | With the lengths hh and h and without one the value is kept if and only if it lies in the 8-, 16- or 32-bit type of the conversion. |
| PrintfValues.ValuesInText | src/lib/common/format.cpp:720-860 | Up to sixteen integers that fit an int and strings formatted into texts with "%d" and "%s" between them give the texts and, in turn, the decimal numbers, none of them misplaced whatever the storage, and the strings as they are. |
| PrintfLooks.LetterPrintf | src/lib/common/format.cpp:795-820 | "%d", "%i" and "%u" print a value their type keeps in decimal, "%x", "%X" and "%o" in their radix and case. |
| PrintfLooks.CharPrintf | src/lib/common/format.cpp:806-847 | "%c" prints the character whose code is the last octet of the number it is given. |
| PrintfLooks.StringPrintf | src/lib/common/format.cpp:855-861 | "%s" prints a string as it is. |
| PrintfLooks.WidePrintf | src/lib/common/format.cpp:648-718 | "%wd" and "%ws" put blanks before a value, "%-wd" and "%-ws" behind it. |
| PrintfLooks.WideChar | src/lib/common/format.cpp:829-847 | "%wc" puts blanks before a character, "%-wc" behind it. |
| PrintfLooks.IntegerConversionText | src/lib/common/format.cpp:648-828 | What any integer conversion writes, from its flags, width, precision, letter and value. |
| PrintfLooks.ZeroBeforeSignExactly | src/lib/common/format.cpp:755-762 | With the zero flag a negative number gets zeros before its sign if and only if the precision adds zeros and the width is beyond sign and precision. |
| PrintfLooks.ZeroBeforeSign | src/lib/common/format.cpp:755-762 | A witness: "%06.3d" of -5 is 00-005. |
| PrintfPieces.ConvertedMeans | src/lib/common/format.cpp:282-337 | The converted argument and letter: i and u become d, a short value is reduced to its 8, 16 or 32 bits, a long one goes through the unsigned type of its own width, and c gives a signed char. |
| PrintfValues.CharUnderNumberExactly | src/lib/common/format.cpp:764-811 | A conversion reaches the writing of a character with a letter other than c if and only if its argument is of type char, its length is L and its letter is not c; the argument is then unchanged. |
| PrintfValues.WrittenTwiceExactly | src/lib/common/format.cpp:816-847 | A conversion of an integer or character whose letter is known writes the number's field and the padded character behind it if and only if that holds, and one of the two alone otherwise; an unknown letter is an error. |
| PrintfValues.CharPrintedTwice | src/lib/common/format.cpp:787-847 | A witness: "%Ld" of a character prints its number and then the character. |
| Base64Alphabet.TableIsRanges | src/lib/common/base64.cpp:4-7 | Entry i of the table is the letter RFC 4648 section 4 gives to i. |
| Base64.CutsAreSextets | src/lib/common/base64.cpp:24-27 | The masks and shifts cut the 24-bit group into its four six-bit numbers. |
| Base64.Base64Encode | src/lib/common/base64.cpp:14-55 | The loop and its tail produce the encoding by 24-bit groups of RFC 4648 section 4. |
| Base64.EncodeTail | src/lib/common/base64.cpp:35-51 | One or two octets left over become two or three letters and the padding. |
| Base64.Base64Decode | src/lib/common/base64.cpp:57-96 | On every string the loop and its tail decode the letters before the first other character, group by group. |
| Base64.DecodeTail | src/lib/common/base64.cpp:81-93 | The cells that stand for missing letters become 255, and no octet that is kept depends on them. |
| Base64.EncodesFoobar | src/lib/common/base64.cpp:14-55 | The test vectors f, fo and foobar of RFC 4648 section 10. |
| Base64.DecodeUndoesEncode | src/lib/common/base64.cpp:14-96 | Decoding an encoding gives the octets back, for every sequence of octets. |
| Base64.EncodeIsCanonical | src/lib/common/base64.cpp:14-55 | An encoding is canonical (RFC 4648 sections 3.5 and 4) and has 4*ceil(n/3) characters. |
| Base64.EncodeUndoesDecodeExactly | src/lib/common/base64.cpp:14-96 | Encoding a decoded string gives the string back if and only if it is canonical. |
| EventTables.MaxFD | src/lib/network/event_poller.cpp:169-198 | The two loops return the largest descriptor of both maps, or -1. |
| SelectPoller.SelectPoller.DoRegisterForRead | src/lib/network/poller_select.cpp:151-185 | Takes a small descriptor that is not in the set, and sets the bit and the largest descriptor. |
| SelectPoller.SelectPoller.DoRegisterForWrite | src/lib/network/poller_select.cpp:188-224 | The same for writing, counting it. |
| SelectPoller.SelectPoller.DoDeregisterForRead | src/lib/network/poller_select.cpp:227-249 | Clears a set bit and, if it was the largest, finds the new largest. |
| SelectPoller.SelectPoller.DoDeregisterForWrite | src/lib/network/poller_select.cpp:252-275 | The same for writing, uncounting it. |
| SelectPoller.SelectPoller.RegisterForRead | src/lib/network/event_poller.cpp:49-60 | Keeps the index invariant and does to the tables what the select step says. |
| SelectPoller.SelectPoller.DeregisterForRead | src/lib/network/event_poller.cpp:77-82 | Keeps the index invariant: the map entry goes before the bit. |
| SelectPoller.SelectPoller.RegisterForWrite | src/lib/network/event_poller.cpp:63-74 | Keeps the index invariant for writing. |
| SelectPoller.SelectPoller.DeregisterForWrite | src/lib/network/event_poller.cpp:85-90 | Keeps the index invariant for writing. |
| SelectPoller.SelectPoller.PerformAll | src/lib/network/poller_select.cpp:151-275 | After every run of calls, valid or not: the bits are the keys of the maps, the write count is the size of the write map, the largest descriptor is the maximum of both or -1; and tables and return values are those of the step function. |
| SelectPoller.SelectPoller.TriggerRead | src/lib/network/event_poller.cpp:93-105 | The registered handler is called and may register and remove anything. |
| SelectPoller.SelectPoller.HandleNotifications | src/lib/network/poller_select.cpp:66-79 | The loop that ends at the shrinking largest descriptor or when the ready count is used up has the same effect as the pass over all 1024 descriptors; the count it leaves is that of the ready turns it did not reach, and none of their descriptors is registered any more. |
| SelectPoller.SelectPoller.ProcessPendingEvents | src/lib/network/poller_select.cpp:84-148 | Asking only below the largest descriptor and passing no write set while the count is zero loses nothing: everything servable that has a handler gets its turn. What is returned is the count the dispatch leaves, that of the turns not reached; it is the number of ready turns if and only if that is zero. |
| SelectPoller.LeftOverIsCountExactly | src/lib/network/poller_select.cpp:66-79 | From any descriptor on, when everything ready is registered, the count left is the whole count if and only if nothing is ready. |
| SelectPoller.TurnsInOrder | src/lib/network/poller_select.cpp:66-79 | Turns come by descriptor upwards, and reading before writing. |
| SelectPoller.PassIsFair | src/lib/network/poller_select.cpp:66-79 | For every behaviour of the handlers: a servable descriptor that stays registered is called exactly once in its direction; none is called twice, unready, or without having been registered. |
| Dispatch.CalledOnceExactly | src/lib/network/event_poller.cpp:93-120 | A turn leads to one call if its descriptor is registered when the turn comes, and to none otherwise. |
| Dispatch.CallsRightHandler | src/lib/network/event_poller.cpp:93-120 | Every call goes to the handler the table holds at that moment. |
| Registrations.TableHoldsLastGiven | src/lib/network/event_poller.cpp:49-90 | After every run of calls on either poller the table holds, for a registered descriptor, the handler given in the last successful registration of that descriptor and direction, or the one it held before the run. |
| Registrations.CallsLastGiven | src/lib/network/event_poller.cpp:93-120 | Every call of a pass goes to the handler so given, registrations by handlers called earlier in the pass included. |
| Registrations.BothPollersStoreGiven | src/lib/network/event_poller.cpp:49-90 | Both pollers store the handler of a registration they accept and change no other. |
| EpollPoller.EpollPoller.DoRegister | src/lib/network/poller_epoll.cpp:55-104 | The operation and mask are chosen by the other direction's registration. |
| EpollPoller.EpollPoller.PerformAll | src/lib/network/poller_epoll.cpp:55-104 | After every run of calls, valid or not, the kernel's mask of a descriptor is IN exactly when it is in the read map and OUT exactly when it is in the write map. |
| EpollPoller.EpollPoller.TriggerError | src/lib/network/event_poller.cpp:123-131 | A failure goes to the reading handler, or else to the writing one. |
| EpollPoller.EpollPoller.ProcessPendingEvents | src/lib/network/poller_epoll.cpp:131-149 | The event loop gives each reported descriptor its turns in order. |
| EpollPoller.PassIsFair | src/lib/network/poller_epoll.cpp:131-149 | The same fairness for a pass of the epoll poller; a descriptor reported neither ready in a direction nor failed is not called in it. |
| EpollPoller.TurnsInOrder | src/lib/network/poller_epoll.cpp:131-149 | Turns follow the reported events, and of one event reading comes before writing. |
| EpollPoller.FailureToldOnce | src/lib/network/poller_epoll.cpp:133-136 | A failure is told to exactly one handler if there is one. |
| EventTables.SelectTakes | src/lib/network/poller_select.cpp:151-275 | The select poller takes descriptors from 0 to 1023, once in each direction, and removes those it has. |
| EventTables.EpollTakes | src/lib/network/poller_epoll.cpp:55-104 | The epoll poller takes a registration that is new in its direction or whose descriptor is registered in the other, and a removal of what is registered in either. |
| EventTables.StepsAgreeExactly | src/lib/network/poller_epoll.cpp:55-104 | The pollers agree on a call if and only if it is no registration of a descriptor already registered in both directions, none of a new large descriptor, and no removal of a descriptor registered only in the other direction. |
| EventTables.RunsAgreeExactly | src/lib/network/event_poller.cpp:49-90 | Two pollers return the same along a run if and only if every call in it is of that kind, and then hold the same handlers. |
| EventTables.ProperRunsAgree | src/lib/network/event_poller.cpp:49-90 | Runs without duplicate registrations, stray removals and large descriptors are such runs, and every call succeeds. |
| Pollers.SameWatch | src/lib/network/poller_epoll.cpp:55-104 | After such a run the bit sets of the one and the interest masks of the other watch the same descriptors for the same directions. |
| ErrorReporter.ErrorReporter.AddReport | src/lib/network/error_reporter.cpp:199-243 | A raise prints the first message, or counts and prints when 2000 ms have passed, and keeps the entries sound. |
| ErrorReporter.ErrorReporter.ReportPendingExceptions | src/lib/network/error_reporter.cpp:249-309 | The loop with the deferred erase visits each entry once and leaves exactly the state of the sweep. |
| ErrorReporter.ErrorReporter.Visit | src/lib/network/error_reporter.cpp:268-300 | One entry's turn. |
| ErrorReporter.StaleOwesNothing | src/lib/network/error_reporter.cpp:274-302 | An entry about to be evicted has count zero at that moment. |
| ErrorReporter.StepEnds | src/lib/network/error_reporter.cpp:304-308 | At the end the map holds the flushed entries that are not stale, and its iteration order is intact. |
| ErrorRuns.NothingIsLost | src/lib/network/error_reporter.cpp:199-309 | Over every run under a non-decreasing clock and for every key: raises = first messages + counts printed + count pending + 2^32 for each wrap of the count; so the account balances if and only if no raise of the key finds its pending count at 2^32 - 1. |
| ErrorRuns.ForcedSweepPrintsAll | src/lib/network/error_reporter.cpp:278-290 | After a forced sweep the log alone accounts for every raise. |
| ErrorRuns.SweepDropsExactly | src/lib/network/error_reporter.cpp:292-302 | A sweep keeps exactly the entries raised in the last 10000 ms, and what it drops has been printed in full. |
| ErrorRuns.RepeatsAreSpaced | src/lib/network/error_reporter.cpp:79-111 | In every run a repeat message tells the time since the message before it for the same key; without forced sweeps that is at least 2000 ms. |
| ErrorSpacing.RaisePrintsExactly | src/lib/network/error_reporter.cpp:199-243 | A raise prints the first message of a key without an entry, a repeat from 2000 ms after the last report on, and nothing in between. |
| ErrorSpacing.SweepPrintsExactly | src/lib/network/error_reporter.cpp:268-290 | A sweep prints the pending count of an entry that was last reported 2000 ms ago or more, or of any when forced. |
| ErrorRuns.FirstMayFollowAtOnce | src/lib/network/error_reporter.cpp:226-241 | A first message after an eviction may not: a run in which it comes in the same millisecond. |
| ErrorSpacing.EveryKeyTraced | src/lib/network/error_reporter.cpp:207-302 | After every run: the call that printed the last message of a key; if it was a raise, the entry is there and raised no earlier, or that raise is more than 10000 ms ago. |
| ErrorSpacing.FirstIsUnspacedExactly | src/lib/network/error_reporter.cpp:199-302 | A first message follows the last message of its key within 2000 ms if and only if a sweep printed that message less than 2000 ms earlier and an evicting sweep lies between. |
| ErrorSpacing.AllAreSpaced | src/lib/network/error_reporter.cpp:199-302 | In every run without forced sweeps in which every pending count is swept within 6000 ms of becoming due, every message, first ones included, comes at least 2000 ms after the one before it for its key. |
| ErrorSpacing.RegularSweepsSpaceAll | src/lib/network/error_reporter.cpp:46-54 | So it is in every run whose sweeps, never forced, are at most 6000 ms apart. |
| WatcherNames.KbeSplit | src/lib/helper/watcher.cpp:42-43 | kbe_split, the loop over separators in strutil.h, returns the non-empty parts between them. |
| WatcherNames.SplitUndoesJoin | src/lib/helper/watcher.cpp:231-232 | Splitting a path joined from non-empty parts gives the parts back. |
| WatcherNames.EraseFirstPart | src/lib/helper/watcher.cpp:234-234 | Erasing the first part and one character leaves the rest of such a path. |
| WatcherNames.CutFollowsSplitExactly | src/lib/helper/watcher.cpp:231-234 | One cut of any path leaves the other parts if and only if at most one slash comes before the first one. |
| WatcherNames.WalkFollowsSplitExactly | src/lib/helper/watcher.cpp:227-247 | On any path the recursive walk visits exactly the parts, as the iterative one does, if and only if the path has at most as many slashes as non-empty parts. |
| WatcherNames.WalkGoesAstray | src/lib/helper/watcher.cpp:227-247 | On "/a//b" it visits a, b, b, and on "a//" it takes the first of no parts. |
| WatcherNames.AddedWhereSplitExactly | src/lib/helper/watcher.cpp:201-256 | On any non-empty path a watcher is added where the other calls look for it if and only if the path has at most as many slashes as parts. |
| Watchers.CutPath | src/lib/helper/watcher.cpp:203-218 | Directory and name of any path: as many characters as the last part has, and one more, are cut off its end. |
| Watchers.MakeWatcher | src/lib/helper/watcher.cpp:29-51 | A watcher object gets that directory and name, for any path. |
| Watchers.WatcherOfJoined | src/lib/helper/watcher.cpp:29-51 | For joined parts these are the joined directory and the last part. |
| Watchers.Watchers.AddWatcher | src/lib/helper/watcher.cpp:99-112 | A name that is taken is refused and its object kept. |
| Watchers.Watchers.DelWatcher | src/lib/helper/watcher.cpp:115-123 | Removes one name and no other. |
| Watchers.WatcherPaths.AddIn | src/lib/helper/watcher.cpp:227-256 | On every path whose walk does not run out of parts, the recursive walk, creating directories as needed, changes the lookup of exactly one place: the walk's directories and the object's name. |
| Watchers.WatcherPaths.AddWatcher | src/lib/helper/watcher.cpp:201-224 | Adding at any such path makes the object the lookup of that place, if it was free, and changes no other. |
| Watchers.WatcherPaths.FindNode | src/lib/helper/watcher.cpp:344-357 | The iterative walk reaches the node the path leads to. |
| Watchers.WatcherPaths.HasWatcher | src/lib/helper/watcher.cpp:363-387 | Tells whether the directory exists, not whether the watcher does. |
| Watchers.WatcherPaths.GetWatcher | src/lib/helper/watcher.cpp:390-421 | Returns the lookup of the parts of any path with two or more; a watcher added with a single part is never returned. |
| Watchers.WatcherPaths.DelWatcher | src/lib/helper/watcher.cpp:329-360 | Removes exactly one path's object and reports whether there was one; single parts are refused. |
| Watchers.WatcherPaths.LookupIsAtNode | src/lib/helper/watcher.cpp:227-421 | The recursive lookup and the node found by walking agree. |
| Watchers.WatcherPaths.DirPath | src/lib/helper/watcher.cpp:450-484 | The recursive listing names every sub-directory and watcher of the node once, and nothing when there is no such node. |
| Watchers.WatcherPaths.ReadWatchers | src/lib/helper/watcher.cpp:424-447 | The recursive output writes the watcher of each name of the same node, each once. |
| Watchers.WatcherPaths.PerformAll | src/lib/helper/watcher.cpp:201-421 | After every run of additions and removals, at any paths the code can split, the tree is the flat map from places to objects. |
| Watchers.AddedIsFetchedExactly | src/lib/helper/watcher.cpp:201-421 | A watcher added to an empty tree is fetched by its own path if and only if the path has at least two parts and at most as many slashes as parts. |
| Watchers.JoinedIsFetched | src/lib/helper/watcher.cpp:201-421 | Two or more joined parts are such a path, and the watcher is at these parts. |

## Left out

- ArgList.TypesReadBack: only the packed types; the array of values beside them is indexed by the same number.
- Sha1.Sha1.CircularShift: stated for the shifts 1, 5 and 30 that the program uses.
- Sha1.Sha1.Input: the octets are a sequence, so a null pointer and the C++ stream operators are not part of this model.
- OutputBuffer.MemoryBuffer.Append: the data is a value, so appending a buffer's own storage to itself is not modelled;
  allocation never fails.
- DecimalPrinters.FormatInt.Signed: the terminating null of `c_str` is not modelled.
- BraceFormat.BasicFormatter.Format: what has been written before an exception is only known to extend the old output;
  user-defined argument types, which take over the parsing, are left out.
- FormatPieces.SpecifierThere: written numbers are at most INT_MAX and a fill is no brace; larger numbers are the
  parser's matter (`NumberParser.ParserRightExactly`).
- PrintfPieces.ConversionThere: written numbers are at most INT_MAX, for the same reason.
- FormatValues.ValuesInText: characters, floating point, wide strings and pointers are written by an arbitrary rule, and
  string pointers are not null.
- PrintfFormat.PrintfFormatter.Format: the last step, writing a value with the specifier that was read, is any rule;
  `PrintfValues` states it for integers, characters and strings, where the integer writer does not misplace a number
  (`PrintfMisplacedExactly`); what has been written before an error is only known to extend the old output; `long` and
  the types of `z` and `t` have 64 bits and `char` is signed.
- Base64.Base64Decode: `isalnum` is that of the C locale, and strings are shorter than 2^31 characters.
- SelectPoller.SelectPoller.ProcessPendingEvents: the POSIX branches only; timeouts and idle-time accounting are left out.
- EpollPoller.EpollPoller.DoRegister: `epoll_ctl` fails only for a descriptor that is present or absent when it should
  not be; bad descriptors and other causes are not part of this model.
- ErrorReporter.ErrorReporter.AddReport: the text of a message is its key, count and age; stamps do not wrap at 64 bits.
- Watchers.WatcherPaths.AddWatcher: a path on which the code takes an element of an empty vector is outside; the id
  counter and the abort on a duplicate in debug builds are left out.
- ErrorSpacing.RegularSweepsSpaceAll: the timer that calls the sweeps is a condition on the run.
- `write_double`, `safe_strerror` and the Windows branches: they hand over to the system.
- Generated protocol code, sockets, packet receivers and senders, RSA, MD5, Blowfish and MySQL: their substance is in
  libraries and system calls.
