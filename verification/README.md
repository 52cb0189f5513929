# Verification of j2_library

A Dafny model of the algorithms of j2_library, a C++ library of small utilities, with proofs of what
they promise. `dafny verify dfyconfig.toml` checks all of it.

Each area is modelled in the form of its source. What the library does with loops, cursors, in-place
arrays and objects is a method or a class here, and the contract of that method ties its result, or the
new state, to a function. The properties are then lemmas about these functions, for all inputs, all runs
and all reachable states.

- **Weekly scheduler** (`WeeklyTypes`, `Scheduler`, `ScheduleNormalizer`, `NormalForms`). Inclusive arcs on a circle of
  10080 minutes. An insertion absorbs everything it overlaps or borders, under three week shifts and to a
  fixpoint. The list it leaves is the canonical list of the maximal runs of what was inserted. The
  activity test disagrees with that coverage in one case, which is characterised exactly: a same-day range
  whose end is before its start, read as almost a week by the insertion and as empty by the test. It can be told
  from the inserted ranges whether that case comes about. Two lists
  normalize alike exactly when they answer alike and the same such ranges are kept.
- **XML** (`XmlText`, `XmlSerializer`, `XmlGrammar`, `XmlParser`, `XmlPolicies`, `XmlRoundTrip`). The printer, the
  cursor-based parser as a refinement of a grammar on the remaining input, and the exact set of trees that
  survive printing and parsing, under each of the three text policies. What documents mean is defined on their
  parts, without the grammar (`XmlMeaning`), and texts, errors and layout in literal characters (`XmlLiterals`).
- **AES-128 in ECB mode** (`AesField`, `AesInverse`, `AesBlock`, `AesStandard`, `CipherText`, `CipherLiterals`,
  `Cipher`). Arithmetic in the
  field GF(2^8), the S-box as the affine image of its inverse, the round steps in place, the key schedule,
  padding, hexadecimal text, and the round trip of the class. The ten rounds and the key schedule are also
  characterised by equations for each byte.
- **INI store** (`IniText`, `IniValue`, `IniStore`, `IniFile`, `IniRoundTrip`, `IniReached`, `IniReading`,
  `IniDocuments`). Ordered
  vectors with index maps against a plain map, two ways of quoting, the comment stripper that knows about
  quotes, which texts of doubles are read as integers, and the exact set of stores that saving and loading
  preserves, among all that setters or any loaded text can build. What single values, whole files and
  histories of changes mean is stated line by line.
- **Wildcards and the directory scan** (`Wildcard`, `WildcardMeaning`, `FileFinder`, `FinderMeaning`). The greedy
  matcher, in its two copies, against the meaning of patterns; the recursive scan on a directory graph that may have cycles.
- **Concurrent queue** (`ConcurrentQueue`). The lock regions as methods, and a step machine of any number
  of threads that sleep, are notified, wake up spuriously, and steal.
- **Unicode** (`Utf8`, `Utf8RoundTrip`, `Utf16`, `UtfLiterals`, `U8String`, `U8Reversal`). The lenient and the strict
  conversions against the grammars of RFC 3629 and RFC 2781, slices by code points, and reversal with the
  exact condition under which a byte string survives it.
- **Bit arrays** (`BitArray`, `BitOrder`). Packed bytes as a representation of bit sequences.
- **Dates** (`DateTime`, `DateTimeParse`, `DateMeaning`). Two formatters and the strict parser over the same tokens.

Conventions. `std::string` is a `string`, or a sequence of `bv8` where the source works on bytes;
`char16_t` and `char32_t` are `bv16` and `bv32`. Sizes and indexes are unbounded, except where sizes
that a caller chooses can wrap around: the sums in `mid` and in `get` of a bit array, and the rounding in
`set_bits`. Exceptions and failure results are datatypes. The character classes are those of the "C" locale. `hide` statements in proofs keep
definitions out of steps that do not need them.

Where the code and its comments disagree, the model follows the code. The wildcard matcher, described as a
plain glob, tries a literal comparison before the star, so a star in the text can use up the star of the
pattern; it is right on every text exactly for patterns without a star. `merge` of a bit array into itself
reads bits it has already written, so that it is the splice of the old bits only if these are periodic. The guard
of `get` misses slices whose end wraps around. A double saved in an INI file as digits alone, inside 64 bits, is loaded as
an integer. Reversing a string twice joins a stray lead byte with the stray tail bytes before it. A format with
SSS is printed by the `tm` formatter with those letters in place.

## Model

| member | source | states |
|---|---|---|
| Scheduler.Scheduler.AddRange | j2_library/src/schedule/weekly/scheduler.cpp:87-188 | The list after an insertion is the old one without the ranges that overlap or border the new one, directly or through others, plus one range that covers exactly what the new and the removed ones covered; the loop to a fixpoint terminates |
| Scheduler.Absorb | j2_library/src/schedule/weekly/scheduler.cpp:113-124 | Tries the shifts -1, 0, +1 week in this order and returns the hull with the first that comes near |
| Scheduler.ToRange | j2_library/src/schedule/weekly/scheduler.cpp:158-184 | Turns the merged interval back into days and times, or into Monday 00:00 to Sunday 23:59 exactly when it spans a week |
| Scheduler.HullIsUnion | j2_library/src/schedule/weekly/scheduler.cpp:118-121 | The hull of two overlapping or adjacent intervals covers modulo a week exactly what either covers |
| Scheduler.ThreeShiftsSuffice | j2_library/src/schedule/weekly/scheduler.cpp:113-118 | If any week shift of a stored arc comes near the merged interval, one of -1, 0, +1 does |
| Scheduler.UntouchedAfterThreeShifts | j2_library/src/schedule/weekly/scheduler.cpp:136-148 | An arc that none of the three shifts brings near neither overlaps nor borders the merged arc on the circle |
| Scheduler.AddStepCoverage | j2_library/src/schedule/weekly/scheduler.cpp:87-188 | Coverage after an insertion is the union of the old coverage and the new range, for every list |
| Scheduler.AddStepKeepsCanonical | j2_library/src/schedule/weekly/scheduler.cpp:152-187 | Insertion keeps the list a set of disjoint, non-adjacent arcs or the single full week |
| Scheduler.RunInvariant | j2_library/src/schedule/weekly/scheduler.cpp:87-188 | After any sequence of insertions from the empty list the list is canonical and covers exactly what was inserted |
| WeeklyTypes.CanonicalRangesAreTheMaximalRuns | j2_library/src/schedule/weekly/scheduler.cpp:152-187 | The ranges of a canonical list are exactly the maximal circular runs of what it covers |
| WeeklyTypes.CanonicalFormIsUnique | j2_library/src/schedule/weekly/scheduler.cpp:152-187 | A canonical list is determined up to order by the minutes it covers |
| Scheduler.InsertionOrderDoesNotMatter | j2_library/src/schedule/weekly/scheduler.cpp:87-188 | Any two orders of insertion, and any two inputs of the same coverage, end with the same ranges up to order |
| Scheduler.Scheduler.IsActiveAt | j2_library/src/schedule/weekly/scheduler.cpp:219-250 | Answers the activity predicate for the day and minute of a broken-down time, Sunday being day 0 |
| Scheduler.ActiveMinutesWereInserted | j2_library/src/schedule/weekly/scheduler.cpp:219-250 | After any run, an active minute lies in some inserted range |
| Scheduler.ActivityIsExactUnlessInverted | j2_library/src/schedule/weekly/scheduler.cpp:236-237 | On a canonical list, activity agrees with coverage at every minute if and only if no stored range starts and ends on one day with its end before its start |
| Scheduler.InvertedExactlyWhenTheOnlyGapIsInsideOneDay | j2_library/src/schedule/weekly/scheduler.cpp:158-184 | Such a range is stored if and only if what is covered leaves out only a gap strictly inside one day |
| Scheduler.ActivityAnswersForInputsExactlyWhen | j2_library/src/schedule/weekly/scheduler.cpp:87-250 | After any run, the activity test answers at every minute as the inserted ranges say if and only if what they leave out is not just a gap strictly inside one day |
| Scheduler.OrdinaryRangesCanMergeIntoAnInvertedOne | j2_library/src/schedule/weekly/scheduler.cpp:98-98 | Two ordinary ranges whose merge is such a range |
| ScheduleNormalizer.PushIntervals | j2_library/src/schedule/weekly/schedule_normalizer.cpp:6-30 | Appends the intervals of one range day by day, around the end of the week as well |
| ScheduleNormalizer.MergeIntervals | j2_library/src/schedule/weekly/schedule_normalizer.cpp:45-54 | Merges the sorted intervals of a day that overlap or are adjacent |
| ScheduleNormalizer.Normalize | j2_library/src/schedule/weekly/schedule_normalizer.cpp:32-70 | The expansion, the sort and the merging, turned back into ranges |
| ScheduleNormalizer.NormalizationPreservesActivity | j2_library/src/schedule/weekly/schedule_normalizer.cpp:32-70 | Normalizing changes the answer at no day and minute, for every list |
| ScheduleNormalizer.NormalizedIsSortedAndSeparated | j2_library/src/schedule/weekly/schedule_normalizer.cpp:38-54 | The output is ordered, stays within days and leaves a gap between ranges of a day |
| ScheduleNormalizer.NormalizationIsIdempotent | j2_library/src/schedule/weekly/schedule_normalizer.cpp:32-70 | Normalizing twice is normalizing once |
| NormalForms.InvertedRangesKept | j2_library/src/schedule/weekly/schedule_normalizer.cpp:38-54 | How many copies of an inverted range the output has: none when the minute before its start is active, otherwise all of them, except that one ending right before its start is left once, and not when its start is active |
| NormalForms.NormalizesAlikeExactlyWhen | j2_library/src/schedule/weekly/schedule_normalizer.cpp:32-70 | For any two lists: the outputs are equal if and only if the answers are equal at every day and minute and the same inverted ranges are kept |
| NormalForms.NormalizationIsCanonical | j2_library/src/schedule/weekly/schedule_normalizer.cpp:32-70 | Lists without inverted ranges that answer alike normalize to the same list |
| XmlText.DecodeEscaped | j2_library/src/xml/xml.cpp:10-38 | Decoding the entities of escaped text or of an escaped attribute value gives the string back, for every string |
| XmlText.EscapedTextComesBackTrimmed | j2_library/src/xml/xml_parser.cpp:425-436 | Text that was escaped and followed by white space comes back trimmed |
| XmlText.DecodeEntities | j2_library/src/xml/xml_parser.cpp:242-290 | The loop computes the entity decoding, unknown entities kept as they are |
| XmlPolicies.StoredTextStays | j2_library/src/xml/xml_parser.cpp:415-475 | Which texts of a node with n children are stored unchanged after printing: trimmed ones by default; any of a leaf under Preserve; under CollapseWhitespaceOnly the empty one of a leaf, n + 1 blanks, or a trimmed one with n blanks behind it |
| XmlSerializer.SerializeXml | j2_library/src/xml/xml.cpp:75-82 | The printer writes the text of the tree to the stream |
| XmlParser.XmlParser.ReadElement | j2_library/src/xml/xml_parser.cpp:477-574 | The cursor ends where the grammar of an element ends, with its node, or the same error is raised |
| XmlParser.XmlParser.ReadAttributes | j2_library/src/xml/xml_parser.cpp:362-413 | Attributes and namespace declarations, as the grammar says, or the error |
| XmlParser.XmlParser.FlushTextBuffer | j2_library/src/xml/xml_parser.cpp:415-475 | What the three text policies append to the text of a node |
| XmlParser.XmlParser.ParseDocument | j2_library/src/xml/xml_parser.cpp:577-596 | Returns the tree or the error that the grammar of documents gives for the whole input |
| XmlRoundTrip.ParseSerialized | j2_library/src/xml/xml.cpp:40-82 | For every tree whose names are made of name characters, what parsing its printed form gives: the tree with the texts that the policy stores and resolved prefixes, or the error at an empty name (under Preserve for leaves) |
| XmlRoundTrip.PreservedChildrenChangeTheText | j2_library/src/xml/xml.cpp:40-73 | Under Preserve no tree with children comes back: the line break in front of the first child stays in the text |
| XmlRoundTrip.RoundTripExactlyForPlainTrees | j2_library/src/xml/xml_parser.cpp:415-596 | For every tree and each of the three policies: printing and parsing gives the same tree if and only if names are non-empty name characters without colon, no attribute is called xmlns, there are no prefixes and every text is one the policy keeps |
| XmlMeaning.DocumentMeans | j2_library/src/xml/xml_parser.cpp:315-596 | For every well-formed document, written out as text with its white space, quotes, prefixes, comments, instructions, character data and nested elements, and for each text policy: parsing gives the tree that the document means. Names are split at the first colon, the latest declaration of a prefix wins, attributes see the declarations in front of them and elements all of their own, texts are the pieces of their runs, and character data is taken as it is |
| XmlMeaning.UnclosedElementMeans | j2_library/src/xml/xml_parser.cpp:519-574 | A root element that the input ends in is read as if its end tag followed |
| XmlMeaning.RootIsRead | j2_library/src/xml/xml_parser.cpp:315-336 | Comments, instructions and white space in front of the root change nothing |
| XmlLiterals.TextOfDocument | j2_library/src/xml/xml_parser.cpp:415-475 | For every document without character data: by default the text of the root is the decoding of its trimmed non-empty runs, in order, joined by single blanks, whatever comments, instructions and elements stand between them; under Preserve it is the decoding of all runs |
| XmlLiterals.EntitiesDecoded | j2_library/src/xml/xml_parser.cpp:242-290 | The five entities stand for their characters and every other character for itself |
| XmlLiterals.CharactersEscaped | j2_library/src/xml/xml.cpp:10-38 | Which characters are written as entities in text and in attribute values |
| XmlLiterals.TrimmedBetween | j2_library/src/xml/xml_parser.cpp:28-44 | Trimming takes blanks, tabs, line breaks, vertical tabs and form feeds off both ends and nothing else |
| XmlLiterals.RootsRefused | j2_library/src/xml/xml_parser.cpp:477-488 | The errors of empty input, of a document without a root, and of a root that does not begin with a name, behind any prolog |
| XmlLiterals.TagsCutShort | j2_library/src/xml/xml_parser.cpp:495-514 | The errors of a start tag without its end, behind any attributes |
| XmlLiterals.AttributesCutShort | j2_library/src/xml/xml_parser.cpp:212-234 | The errors of an attribute without =, without value, without quotes or not closed, behind any attributes |
| XmlLiterals.SectionsUnclosed | j2_library/src/xml/xml_parser.cpp:300-360 | A comment, an instruction and character data that never end are errors, behind any content |
| XmlLiterals.EndTagsRefused | j2_library/src/xml/xml_parser.cpp:524-546 | The errors of an end tag: another local name, no name, or no end |
| XmlLiterals.TreePrinted | j2_library/src/xml/xml.cpp:40-73 | A tree of three levels, character by character: two blanks for each level and a blank before the slash |
| XmlLiterals.DeclarationPrinted | j2_library/src/xml/xml.cpp:75-82 | The declaration line in front of any tree |
| AesField.Gmix | j2_library/src/crypt/cipher.cpp:81-91 | The shift-and-add loop multiplies in GF(2^8) |
| AesField.MulIsLinearOnTheLeft | j2_library/src/crypt/cipher.cpp:81-91 | The product distributes over addition |
| AesField.MulCommutes | j2_library/src/crypt/cipher.cpp:81-91 | The product is commutative |
| AesField.MulAssociates | j2_library/src/crypt/cipher.cpp:81-91 | The product is associative |
| AesField.CirculantsCancel | j2_library/src/crypt/cipher.cpp:119-139 | Two circulant matrices over the field undo each other when the first row of their product is (1, 0, 0, 0) |
| AesField.MixTimesUnmix | j2_library/src/crypt/cipher.cpp:119-139 | The matrices of mix_columns and inv_mix_columns are inverse |
| AesField.InvSBoxAfterSBox | j2_library/src/crypt/cipher.cpp:10-46 | The second table inverts the first |
| AesField.SBoxAfterInvSBox | j2_library/src/crypt/cipher.cpp:10-46 | The first table inverts the second |
| AesInverse.InverseIsInverse | j2_library/src/crypt/cipher.cpp:81-91 | Every non-zero byte has an inverse in the field, its power 254 (FIPS 197 section 4.2) |
| AesInverse.InverseIsUnique | j2_library/src/crypt/cipher.cpp:81-91 | A byte whose product with another is 1 is the inverse of that other |
| AesInverse.SBoxIsAffineInverse | j2_library/src/crypt/cipher.cpp:10-27 | The first table is the affine image of the inverse, for every byte (FIPS 197 section 5.1.1) |
| AesBlock.ShiftRowsRotatesRows | j2_library/src/crypt/cipher.cpp:101-117 | Row r is rotated by r places, and back |
| AesBlock.MixColumnsInverts | j2_library/src/crypt/cipher.cpp:119-139 | Each of the two column steps undoes the other on every state |
| AesBlock.MixColumnsInPlace | j2_library/src/crypt/cipher.cpp:119-128 | The loop over the columns computes the matrix product in place |
| AesBlock.EncryptBlockInto | j2_library/src/crypt/cipher.cpp:163-177 | The rounds on a state array compute the block encryption |
| AesBlock.DecryptBlockInto | j2_library/src/crypt/cipher.cpp:179-193 | The inverse rounds compute the block decryption |
| AesBlock.DecryptingMirrorsEncrypting | j2_library/src/crypt/cipher.cpp:163-193 | Before decryption undoes a round its state is the one encryption had inside that round |
| AesBlock.DecryptBlockAfterEncryptBlock | j2_library/src/crypt/cipher.cpp:163-193 | Decryption of a block undoes encryption, for any 176 bytes of round keys |
| AesBlock.EncryptBlockAfterDecryptBlock | j2_library/src/crypt/cipher.cpp:163-193 | Encryption undoes decryption, so encryption of blocks is onto |
| AesStandard.EncryptionByBytes | j2_library/src/crypt/cipher.cpp:163-177 | For every block and 176 bytes of keys there are ten states, with an equation for every byte: the block plus the first 16 key bytes; nine rounds of S-box, shifted rows, the products by 2, 3, 1, 1 and the next 16 key bytes; and a last round without products, with the key bytes from 160 on |
| AesStandard.DecryptionByBytes | j2_library/src/crypt/cipher.cpp:179-193 | The same for decryption, backwards, with the second table and the products by 14, 11, 13, 9 |
| AesStandard.EveryBlockOnItsOwn | j2_library/src/crypt/cipher.cpp:62-79 | Each block of a text is encrypted on its own |
| Cipher.Cipher.KeyExpansion | j2_library/src/crypt/cipher.cpp:147-161 | The loop fills the 44 words of the recurrence of FIPS 197 section 5.2, whose round constants are the powers of x in the field |
| Cipher.Cipher.SetKey | j2_library/src/crypt/cipher.cpp:52-60 | The key is cut or zero-filled to 16 bytes and expanded |
| AesBlock.ScheduleIsUnique | j2_library/src/crypt/cipher.cpp:147-161 | The recurrence determines all 176 bytes |
| AesStandard.ScheduleByBytes | j2_library/src/crypt/cipher.cpp:52-161 | The round keys of any key string by byte equations: the first 16 are the key, cut or filled with zeros; each later one is the one 16 before plus the one 4 before, in every fourth word substituted, turned by one place and changed by the literal round constant |
| AesStandard.ExpansionIsUnique | j2_library/src/crypt/cipher.cpp:147-161 | These equations determine all 176 bytes |
| CipherText.PaddingRoundTrip | j2_library/src/crypt/cipher_utils.cpp:25-40 | For every block size: removing the padding restores the input if and only if the padding length is at most 16, or the input is empty and the truncated length byte is rejected |
| CipherText.RemovedPaddingIsWellFormed | j2_library/src/crypt/cipher_utils.cpp:32-40 | What is removed is a run of 1 to 16 bytes that all hold its length |
| CipherText.FromHexText | j2_library/src/crypt/cipher_utils.cpp:16-23 | Pairs are read as std::stoul reads them, white space, sign, unread second character and exception included |
| CipherText.HexRoundTrip | j2_library/src/crypt/cipher_utils.cpp:9-23 | Reading printed bytes gives them back |
| CipherText.PrintedHexComesBack | j2_library/src/crypt/cipher_utils.cpp:9-23 | Printing what was read gives the text back if and only if it is an even number of lower-case digits |
| CipherLiterals.PaddingByBytes | j2_library/src/crypt/cipher_utils.cpp:25-30 | The padding is one to sixteen bytes, each of which is their number, up to a multiple of 16 |
| CipherLiterals.UnpaddingByBytes | j2_library/src/crypt/cipher_utils.cpp:32-40 | It is taken off if and only if as many last bytes hold a number from 1 to 16; otherwise nothing is left |
| CipherLiterals.BytesPrinted | j2_library/src/crypt/cipher_utils.cpp:9-14 | Every byte is printed as its two digits by value, the higher one first, in small letters |
| CipherLiterals.PairsRead | j2_library/src/crypt/cipher_utils.cpp:16-23 | What any two characters are read as: digits in either case by value, a digit before anything else alone, one behind white space or a sign, the minus sign taking it from 256; everything else is refused |
| Cipher.DecryptTextAfterEncryptText | j2_library/src/crypt/cipher.cpp:62-79 | decrypt(encrypt(p)) == p for every byte string p and any 176 bytes of round keys |
| Cipher.EncryptTextIsInjective | j2_library/src/crypt/cipher.cpp:62-79 | Different plain texts have different cipher texts under the same keys |
| Cipher.CipherTextsAreExactly | j2_library/src/crypt/cipher.cpp:62-79 | For every text: it is the encryption of some plain text if and only if it is non-empty, lower-case hexadecimal, of a multiple of 32 digits, and decrypts to bytes that end in 1 to 16 bytes holding their own number |
| Cipher.EncryptThenDecrypt | j2_library/src/crypt/cipher.cpp:52-79 | The same through the class, for every key string |
| Cipher.EncryptedLength | j2_library/src/crypt/cipher.cpp:62-68 | The cipher text has 32 lower-case digits for every started block, one block more when the last is full |
| IniText.TrimText | j2_library/src/ini/ini_parser.cpp:15-26 | Removes exactly the leading and trailing blanks, tabs, CR and LF |
| IniText.StripInlineComment | j2_library/src/ini/ini_parser.cpp:28-67 | Cuts at the first comment character that is outside quotes and drops the white space before it |
| IniText.DecodeEncoded | j2_library/src/ini/ini_parser.cpp:69-112 | Decoding undoes encoding of the single-quoted form on every string |
| IniText.DecodeEncodedLiteral | j2_library/src/ini/ini_parser.cpp:114-157 | The same for the double-quoted form |
| IniValue.ParsePrintedInt | j2_library/src/ini/ini_parser.cpp:168-178 | strtoll in base 0 reads back what std::to_string prints, for every 64-bit integer and no other |
| IniValue.ReadIsStorable | j2_library/src/ini/ini_parser.cpp:300-342 | What is read from any text is a value the setters could have stored |
| IniValue.ValueRoundTrip | j2_library/src/ini/ini_parser.cpp:300-342 | A stored value of any kind survives writing and reading if and only if every comment character of a string is inside quotes, counted from the opening one, and a double is not digits alone inside 64 bits and prints the same after strtod |
| IniValue.GuardedIfNoQuoteOrNoComment | j2_library/src/ini/ini_parser.cpp:28-67 | A string without its own quote character or without comment characters is guarded |
| IniValue.DoubleComesBack | j2_library/src/ini/ini_parser.cpp:323-341 | Any text without quotes, comment characters and white space survives as a double if and only if it is no boolean, no integer, and the number it stands for prints as the same text |
| IniValue.FormattedParseInt | j2_library/src/ini/ini_parser.cpp:168-199 | Of the texts that doubles print as, strtoll takes exactly those of digits alone that fit into 64 bits, with the value they show |
| IniValue.DoubleReadBack | j2_library/src/ini/ini_parser.cpp:323-341 | What every printed double is read as: that integer, or the number strtod makes of it, or a string when strtod refuses it |
| IniReading.EscapesDecoded | j2_library/src/ini/ini_parser.cpp:69-95 | The six escapes in literal characters, and a backslash before anything else or at the end |
| IniReading.LiteralDecoded | j2_library/src/ini/ini_parser.cpp:128-134 | Between double quotes only the escaped quote is decoded |
| IniReading.CharactersEncoded | j2_library/src/ini/ini_parser.cpp:97-157 | What is written for each character in either form |
| IniReading.CommentStripped | j2_library/src/ini/ini_parser.cpp:28-67 | Behind any balanced quotes the first comment character takes itself, everything behind and the white space in front away |
| IniReading.QuotedCommentsStay | j2_library/src/ini/ini_parser.cpp:28-67 | Comment characters inside quotes are kept, also in a quote that is not closed |
| IniReading.NumeralRead | j2_library/src/ini/ini_parser.cpp:168-178 | Decimal, octal and hexadecimal numerals, in either case, with sign and leading white space, are read as their value if that fits into 64 bits |
| IniReading.OnlyNumeralsAreIntegers | j2_library/src/ini/ini_parser.cpp:168-178 | And nothing else is read as an integer, except that a NUL hides what follows it |
| IniReading.WordsAreBooleans | j2_library/src/ini/ini_parser.cpp:159-166 | Exactly true and false, in any case, are booleans |
| IniReading.QuotedMeans | j2_library/src/ini/ini_parser.cpp:310-319 | A value in single quotes is the decoded string, one in double quotes the string with its quotes unescaped, with any blanks and comment around it |
| IniReading.WordMeans | j2_library/src/ini/ini_parser.cpp:321-324 | A boolean in any case is stored in small letters |
| IniReading.NumeralMeans | j2_library/src/ini/ini_parser.cpp:325-328 | A numeral inside 64 bits is stored as an integer in decimal, whatever its radix |
| IniReading.NumberMeans | j2_library/src/ini/ini_parser.cpp:329-332 | A number that is no such integer is stored as it prints |
| IniReading.TextMeans | j2_library/src/ini/ini_parser.cpp:333-338 | Any other text is stored as a string: as it stands if it has no backslash, and otherwise as the string that the single-quoted form escapes to it |
| IniReading.DecimalPrinted | j2_library/src/ini/ini_parser.cpp:325-328 | Decimal numbers are printed digit by digit without leading zeros |
| IniStore.IniParser.Upsert | j2_library/src/ini/ini_parser.cpp:227-271 | The vectors after an upsert, with both indexes again in exact agreement with them |
| IniStore.IniParser.Remove | j2_library/src/ini/ini_parser.cpp:498-513 | Removes one entry, and says whether it was there |
| IniStore.IniParser.RemoveSection | j2_library/src/ini/ini_parser.cpp:515-527 | Removes one section, and says whether it was there |
| IniStore.Reindex | j2_library/src/ini/ini_parser.cpp:507-511 | The loop that recomputes an index restores the agreement |
| IniStore.IniParser.Get | j2_library/src/ini/ini_parser.cpp:400-409 | Lookup through the indexes is lookup in the vectors |
| IniStore.LookupsAgreeWithAPlainMap | j2_library/src/ini/ini_parser.cpp:201-271 | After any changes to an empty store every lookup answers as a plain map of maps does |
| IniStore.ChangesKeepTheOrder | j2_library/src/ini/ini_parser.cpp:498-527 | Each change appends, deletes or leaves alone one section name and one key; the survivors keep their order |
| IniFile.Load | j2_library/src/ini/ini_parser.cpp:274-346 | Loading clears the store and applies the lines one after the other; without a file the store stays |
| IniFile.Save | j2_library/src/ini/ini_parser.cpp:348-386 | The text that is written for a store, or false and nothing when the file cannot be opened |
| IniFile.LoadedIsOk | j2_library/src/ini/ini_parser.cpp:274-346 | Whatever the text, the names and keys of a loaded store are trimmed single lines and no key starts a comment or holds an equals sign |
| IniRoundTrip.LoadRestoresExactlySaveableStores | j2_library/src/ini/ini_parser.cpp:274-386 | A store comes back from its saved text if and only if names and keys are trimmed single lines, keys hold no equals sign and start no comment, unnamed entries come first, double-quoted strings have no line break, and all values, doubles included, survive |
| IniReached.LoadedIsStorable | j2_library/src/ini/ini_parser.cpp:274-346 | Every text, however malformed, loads into a store without repeated names or keys, of values as the setters make them |
| IniReached.ReachedIsStorable | j2_library/src/ini/ini_parser.cpp:201-271 | So does every sequence of upserts, removals and section removals |
| IniReached.LoadedStoreComesBackExactlyWhen | j2_library/src/ini/ini_parser.cpp:274-386 | For every text: what was loaded from it comes back from its saved text if and only if its unnamed entries come first and its values survive |
| IniReached.ReachedStoreComesBackExactlyWhen | j2_library/src/ini/ini_parser.cpp:201-386 | The same for every store built by the setters, with the conditions on names and keys |
| IniReached.CopyThroughFile | j2_library/src/ini/ini_parser.cpp:274-386 | Through the class: saving one parser and loading the file into a new one copies it if and only if it is saveable |
| IniDocuments.FileMeans | j2_library/src/ini/ini_parser.cpp:274-346 | For every file of blank lines, comments, headers, settings and other lines: each key of each section has the last value that a line of that section gives it, and a section exists if and only if it has a header or a setting |
| IniDocuments.SingleSettingMeans | j2_library/src/ini/ini_parser.cpp:303-342 | One line alone sets its key in the unnamed section |
| IniDocuments.HistoryMeans | j2_library/src/ini/ini_parser.cpp:201-271 | After any sequence of changes a key has what the last change that touches it leaves there |
| IniDocuments.SavedIsWritten | j2_library/src/ini/ini_parser.cpp:348-386 | The saved file character by character: headers in brackets, key and value around the equals sign, an empty line between sections |
| IniDocuments.ValuesWritten | j2_library/src/ini/ini_parser.cpp:355-372 | How each kind of value is written |
| Wildcard.WildcardMatch | j2_library/src/file/file_finder.cpp:54-65 | The loop terminates and computes the greedy search |
| Wildcard.WildcardImpl | j2_library/src/string/string_basic.cpp:637-661 | The pointer version computes the same search on the text before the first NUL |
| Wildcard.CopiesAgree | j2_library/src/string/string_basic.cpp:637-666 | Both copies agree on NUL-free inputs |
| Wildcard.GreedyIsSound | j2_library/src/file/file_finder.cpp:54-65 | What the matcher accepts matches, for every text and pattern |
| Wildcard.GreedyIsExactWithoutStars | j2_library/src/file/file_finder.cpp:54-65 | On texts without a star it accepts exactly what matches |
| Wildcard.GreedyIsExactOnlyWithoutStars | j2_library/src/file/file_finder.cpp:58-60 | It agrees with the meaning of every pattern if and only if the text has no star |
| Wildcard.GreedyIsExactForPlainPatterns | j2_library/src/file/file_finder.cpp:54-65 | For a pattern without a star it accepts exactly what matches, stars in the text included |
| Wildcard.GreedyIsExactOnlyForPlainPatterns | j2_library/src/file/file_finder.cpp:58-60 | It is right about a pattern on every text if and only if the pattern has no star |
| WildcardMeaning.PlainPatternsCompareCharacters | j2_library/src/file/file_finder.cpp:54-65 | A pattern without a star is accepted if and only if the lengths agree and each of its characters is a question mark or equals that of the text, or, without case, is the same ASCII letter in the other case |
| WildcardMeaning.StarsTakeAnything | j2_library/src/file/file_finder.cpp:54-65 | On texts without a star: accepted if and only if the parts between the stars fit the text one after the other, the first at its start and the last at its end |
| WildcardMeaning.EveryPatternHasParts | j2_library/src/file/file_finder.cpp:54-65 | Every pattern is made of such parts |
| WildcardMeaning.CaseDoesNotMatter | j2_library/src/file/file_finder.cpp:55-55 | Without case the answer is the same after any change of case of ASCII letters in the pattern and in the text, for all texts and patterns |
| FileFinder.Scan.ScanChildren | j2_library/src/file/file_finder.cpp:184-262 | The scan of a directory terminates, cycles included, expands each newly visited directory once and collects exactly their passing items |
| FileFinder.Scan.Find | j2_library/src/file/file_finder.cpp:305-310 | The visited directories are exactly those reachable through entries that may be entered, each is expanded once, and the result is their passing items, each found under its path |
| FileFinder.ClosedContainsReachable | j2_library/src/file/file_finder.cpp:239-250 | A set closed under the entries that may be entered contains everything reachable |
| FinderMeaning.VisitedExactly | j2_library/src/file/file_finder.cpp:184-262 | The visited directories are the least set with the root and every directory listed in one of them that no pattern excludes and that is no link, or links are followed |
| FinderMeaning.CollectedExactly | j2_library/src/file/file_finder.cpp:214-236 | Below the root every listed item of a visited directory is collected as often as it is listed if it meets every filter, and not at all otherwise |
| FinderMeaning.RootIsCollected | j2_library/src/file/file_finder.cpp:275-286 | When the root itself is collected |
| ConcurrentQueue.ConcurrentQueue.EmplaceImpl | j2_library/include/j2_library/queue/concurrent_queue.hpp:147-182 | The lock region appends, displaces the oldest item or rejects the new one |
| ConcurrentQueue.ConcurrentQueue.TryDequeue | j2_library/include/j2_library/queue/concurrent_queue.hpp:58-67 | Takes the head or leaves the empty queue alone |
| ConcurrentQueue.ConcurrentQueue.DequeueIf | j2_library/include/j2_library/queue/concurrent_queue.hpp:83-103 | Takes the head only if the predicate accepts it and the size |
| ConcurrentQueue.StepKeepsOwed | j2_library/include/j2_library/queue/concurrent_queue.hpp:58-182 | Every step of every thread keeps: when a consumer sleeps un-notified, the queue is no longer than notified consumers that have not run plus pushes that have not notified |
| ConcurrentQueue.NoWakeUpIsLost | j2_library/include/j2_library/queue/concurrent_queue.hpp:58-182 | That holds in every state of every run, spurious wake-ups, stealing and clear included |
| ConcurrentQueue.QuietSleeperMeansEmptyQueue | j2_library/include/j2_library/queue/concurrent_queue.hpp:71-78 | A consumer asleep while nothing is pending has nothing to consume |
| ConcurrentQueue.DrainsAreShort | j2_library/include/j2_library/queue/concurrent_queue.hpp:147-182 | Pending notifications and notified consumers can take only so many steps |
| ConcurrentQueue.EveryStateDrains | j2_library/include/j2_library/queue/concurrent_queue.hpp:147-182 | From every state such steps lead to a quiet one |
| ConcurrentQueue.EveryRunConservesItems | j2_library/include/j2_library/queue/concurrent_queue.hpp:58-182 | In every state of every run the accepted items in order are the departed ones followed by the queued ones; the bound holds; reject_new drops nothing and drop_oldest rejects nothing |
| ConcurrentQueue.RunsExtendHistory | j2_library/include/j2_library/queue/concurrent_queue.hpp:58-182 | In every run what has been accepted, has departed or was rejected stays so, in order |
| ConcurrentQueue.EveryEnqueueIsExact | j2_library/include/j2_library/queue/concurrent_queue.hpp:147-182 | In every run an item is refused if and only if the queue is bounded, full and rejects, displaces the head alone if and only if it is bounded, full and drops, and is otherwise put last with nothing leaving |
| ConcurrentQueue.EveryOtherStepIsExact | j2_library/include/j2_library/queue/concurrent_queue.hpp:58-145 | In every run consumers take the head alone, sleep on an empty queue or leave it alone, only a notification or a spurious wake-up ends a sleep, and clearing makes every item depart in order |
| Utf8.NextCodePoint | j2_library/src/string/u8string.cpp:17-132 | One step of the lenient decoder: the code point and the bytes it takes |
| Utf8.AppendUtf8 | j2_library/src/string/u8string.cpp:135-171 | Appends the bytes of a code point, replacing what is no scalar value |
| Utf8.ToU32String | j2_library/src/string/u8string.cpp:350-366 | Decodes a byte string |
| Utf8.ToU8String | j2_library/src/string/u8string.cpp:368-378 | Encodes code points |
| UtfLiterals.BytesDecoded | j2_library/src/string/u8string.cpp:17-132 | Every first bytes by ranges and arithmetic: the code point and its length, and U+FFFD for one byte that starts nothing or is cut short, and for a whole sequence that is overlong, a surrogate or too large |
| UtfLiterals.CodesEncoded | j2_library/src/string/u8string.cpp:135-171 | The bytes of every code point by arithmetic, EF BF BD for surrogates and values above U+10FFFF |
| Utf8RoundTrip.DecodeAfterEncode | j2_library/src/string/u8string.cpp:350-378 | Decoding encoded code points gives them back with surrogates and values above U+10FFFF replaced |
| Utf8RoundTrip.DecodeRestoresExactlyScalars | j2_library/src/string/u8string.cpp:350-378 | They come back unchanged if and only if all are scalar values |
| Utf8RoundTrip.GrammarComesBack | j2_library/src/string/u8string.cpp:17-171 | Each byte sequence of the grammar of RFC 3629 section 4 decodes to a code point that encodes to it |
| Utf8RoundTrip.EncodeAfterDecode | j2_library/src/string/u8string.cpp:17-171 | A byte string survives decoding and encoding if and only if it is well-formed UTF-8 |
| Utf16.Utf16ToUtf32Impl | j2_library/src/encoding/encoding_function.cpp:24-49 | The strict loop, and when it fails |
| Utf16.Utf32ToUtf16Impl | j2_library/src/encoding/encoding_function.cpp:51-73 | The strict loop the other way |
| Utf16.StrictConversionsAreInverse | j2_library/src/encoding/encoding_function.cpp:24-73 | For all texts u and w: u converts to w if and only if w converts to u |
| Utf16.StrictDecoderAcceptsWellFormed | j2_library/src/encoding/encoding_function.cpp:24-49 | It accepts exactly the units in which every surrogate is paired |
| Utf16.ToU16String | j2_library/src/string/u8string.cpp:269-299 | The UTF-16 form of a byte string |
| Utf16.U16ToU8String | j2_library/src/string/u8string.cpp:301-345 | The bytes of UTF-16 units, unpaired surrogates replaced |
| Utf16.U16StringIsStrictlyDecodable | j2_library/src/string/u8string.cpp:269-299 | For every byte string the UTF-16 form is well-formed and strictly decodes to exactly the UTF-32 form |
| Utf16.UnitsSurviveExactlyWhenWellFormed | j2_library/src/string/u8string.cpp:301-345 | UTF-16 survives the way through UTF-8 if and only if it is well-formed |
| UtfLiterals.UnitsDecoded | j2_library/src/string/u8string.cpp:301-345 | A high and a low surrogate by arithmetic, and U+FFFD for one surrogate on its own |
| UtfLiterals.UnitsEncoded | j2_library/src/string/u8string.cpp:269-299 | The units of every code point by arithmetic, FFFD for a surrogate |
| U8String.PiecesPartition | j2_library/src/string/u8string.cpp:681-702 | The index map cuts any byte string into contiguous pieces of 1 to 4 bytes, one for each decoded code point |
| U8String.U8Str.LeftOf | j2_library/src/string/u8string.cpp:705-716 | Returns the bytes of the first n code points |
| U8String.U8Str.RightOf | j2_library/src/string/u8string.cpp:718-730 | Returns the bytes of the last n code points |
| U8String.U8Str.MidOf | j2_library/src/string/u8string.cpp:732-746 | Returns the bytes of the code points asked for that exist, also when the sum of position and count wraps around |
| U8String.LeftAndRightMakeTheWhole | j2_library/src/string/u8string.cpp:705-730 | left(n) and right(length - n) make up the string, for every n up to the length |
| U8String.SlicesDecodeToSlices | j2_library/src/string/u8string.cpp:705-730 | Slices decode to the slices of the decoded string, for malformed strings too |
| U8String.MidDecodesToSlice | j2_library/src/string/u8string.cpp:732-746 | So does a slice from the middle |
| U8String.U8Str.ReverseUtf8 | j2_library/src/string/u8string.cpp:754-772 | Replaces the value by its pieces in reverse order |
| U8Reversal.ReversalDecodesExactlyWithoutJoins | j2_library/src/string/u8string.cpp:754-772 | For every byte string: the result decodes to the reversed code points if and only if no stray lead byte comes directly behind as many stray tail bytes as it asks for |
| U8Reversal.ReversalIsUndoneExactlyWithoutJoins | j2_library/src/string/u8string.cpp:754-772 | For every byte string: reversing twice gives it back if and only if the same holds |
| U8Reversal.ReversalCountsExactlyWithoutJoins | j2_library/src/string/u8string.cpp:754-772 | Reversal never gives more code points, and fewer exactly when pieces join |
| U8Reversal.WellFormedHasNoJoins | j2_library/src/string/u8string.cpp:754-772 | Well-formed text meets the condition |
| U8Reversal.ReversedDecodes | j2_library/src/string/u8string.cpp:754-772 | The reversal of well-formed text is well-formed and decodes to the reversed code points |
| U8Reversal.ReversalIsAnInvolution | j2_library/src/string/u8string.cpp:754-772 | Reversing well-formed text twice gives it back |
| U8Reversal.MalformedReversalCanJoinPieces | j2_library/src/string/u8string.cpp:754-772 | A malformed text that does not come back, and one that does |
| BitArray.BitsOfWithBit | j2_library/src/bit/bit_array.cpp:75-84 | Setting or clearing one bit of the packed bytes changes that bit and no other |
| BitArray.BitArray.constructor | j2_library/src/bit/bit_array.cpp:14-16 | A size of 0 means all bytes; the representation is valid if and only if there are bytes for all bits |
| BitArray.BitArray.SetBits | j2_library/src/bit/bit_array.cpp:131-135 | So many clear bits; the last seven sizes make an invalid array, because the rounding up to bytes wraps around |
| BitArray.BitArray.Get | j2_library/src/bit/bit_array.cpp:39-60 | The slice asked for, clipped to what exists, for all offsets and lengths whose sum the guard can compare |
| BitArray.ClippingIsExact | j2_library/src/bit/bit_array.cpp:41-43 | The guard clips as it should, and the loop stays inside the array, if and only if the sum of offset and length is below 2^64 or wraps to more than the size |
| BitArray.LargestLengthWraps | j2_library/src/bit/bit_array.cpp:41-43 | With the largest length it clips as it should if and only if the offset is 0 or more than one bit behind the end |
| BitArray.BitArray.Merge | j2_library/src/bit/bit_array.cpp:64-87 | Lays the input over the bits from the offset on and changes no other; an array merged into itself is repeated with the offset as period |
| BitArray.TilingIsSplicingExactlyWhen | j2_library/src/bit/bit_array.cpp:64-87 | Merged into itself, an array becomes the splice of its old bits if and only if the offset is 0 or these have the offset as period as far as the splice reads them |
| BitArray.MergeIntoItselfCanSpreadABit | j2_library/src/bit/bit_array.cpp:64-87 | Three bits for which it is not the splice |
| BitArray.BitArray.Concat | j2_library/src/bit/bit_array.cpp:91-114 | Concatenation |
| BitArray.BitArray.ShiftLeft | j2_library/src/bit/bit_array.cpp:156-186 | Shift with zero fill |
| BitArray.BitArray.ShiftRight | j2_library/src/bit/bit_array.cpp:190-220 | Shift with zero fill |
| BitArray.BitArray.Reverser | j2_library/src/bit/bit_array.cpp:224-256 | Reversal |
| BitArray.ConcatThenSplit | j2_library/src/bit/bit_array.cpp:39-114 | Joined arrays taken apart at the seam are the two arrays |
| BitArray.ShiftThereAndBack | j2_library/src/bit/bit_array.cpp:156-220 | A shift and its opposite clear the bits that were pushed out and no others, in both orders |
| BitArray.ReverseTwice | j2_library/src/bit/bit_array.cpp:224-256 | Reversing twice restores the bits |
| BitOrder.ByteIsBinary | j2_library/src/bit/bit_array.cpp:39-60 | A byte is the binary number of its bits, bit 0 counting 128 |
| BitOrder.BytesHoldBitsInOrder | j2_library/src/bit/bit_array.cpp:39-60 | Byte i of the data is the binary number of the bits from 8 i on |
| DateTime.ReadNDigits | j2_library/src/datetime/datetime_util.cpp:10-21 | Reads a number of exactly so many digits, or leaves position and value alone |
| DateTime.AppendNDigits | j2_library/src/datetime/datetime_util.cpp:63-73 | Appends the lowest digits, a negative value counting as 0 |
| DateTime.ReadPrintedDigits | j2_library/src/datetime/datetime_util.cpp:10-21 | Digits read back as the number when there are enough of them |
| DateTime.TokensAreTheSame | j2_library/src/datetime/datetime_string.cpp:350-396 | The formatter and the parser see the same token at every position |
| DateTime.CurrentTimeString | j2_library/src/datetime/datetime_string.cpp:350-396 | The loop over the format, for a given clock time |
| DateTime.FormatFromTmCore | j2_library/src/datetime/datetime_util.cpp:86-132 | The loop of the formatter without milliseconds |
| DateTimeParse.ParseStrict | j2_library/src/datetime/datetime_string.cpp:8-87 | The strict parser up to the broken-down fields, with all its errors |
| DateTimeParse.FilledParses | j2_library/src/datetime/datetime_string.cpp:39-54 | For every format the parser consumes formatted text token by token and fills exactly the fields the format has |
| DateTimeParse.RoundTripWithBase | j2_library/src/datetime/datetime_string.cpp:25-87 | Parsing formatted in-range fields recovers every present field and takes the others from the base, if and only if no date token is present or the resulting date exists |
| DateTimeParse.RoundTripWithoutBase | j2_library/src/datetime/datetime_string.cpp:57-65 | Without a base, if and only if all of date and time are present and the date exists; otherwise the missing-token or date error |
| DateTimeParse.MillisecondsAreAToken | j2_library/src/datetime/datetime_util.cpp:86-132 | SSS occurs in a format if and only if it is one of its tokens |
| DateTimeParse.RoundTripThroughCore | j2_library/src/datetime/datetime_util.cpp:86-132 | Through the formatter without milliseconds the round trip works if and only if the format has no SSS; otherwise the parser stops there |
| DateMeaning.DatesExist | j2_library/src/datetime/datetime_util.cpp:33-45 | Which dates exist, by the lengths of the months |
| DateMeaning.FourCenturies | j2_library/src/datetime/datetime_util.cpp:33-45 | Any 400 years in a row have 146097 days |
| DateMeaning.ClockTimeMeans | j2_library/src/datetime/datetime_string.cpp:350-396 | For every format, as fields and other characters: the formatter writes each field in its place with four, three or two digits |
| DateMeaning.CoreTimeMeans | j2_library/src/datetime/datetime_util.cpp:86-132 | The same for the formatter without milliseconds, whose letters stay |
| DateMeaning.StrictParseMeans | j2_library/src/datetime/datetime_string.cpp:25-87 | For every format and every values typed for its fields: the later value of a field wins, and the result is the fields, or the first error of missing fields, hours above 23, minutes or seconds above 59, months outside 1 to 12, and dates that do not exist |
| DateMeaning.TextsRefused | j2_library/src/datetime/datetime_string.cpp:32-54 | Where a text goes wrong: a character that is missing or different, a field without its digits, or text behind the last part |

## Left out

- Reading and writing files, directory listings, permissions, links that fail to resolve: a file is its text or nothing, the file system is a finite graph, and errors of the system do not occur.
- Depth limits, result limits, visit callbacks, sorting and the one-level scan of the file finder; its extension, regular expression, time and size filters are parameters.
- The conversion of broken-down time by the C library, time zones, and the clock: the model of dates ends at the fields, and the current time is a parameter.
- Strings and arrays too large for memory: the sizes of what exists, counted in bits for bit arrays, and sums that these bound, are taken to stay below 2^64. Sums of sizes that a caller chooses are modelled.
- U8String.U8Str.MidOf: leaves out a position inside the text, not 0, whose sum with the count is exactly 2^64; the source then reads the entry before its index map.
- BitArray.BitArray.Get: leaves out exactly the offsets and lengths whose sum wraps around to at most the size, where the source does not clip and goes on beyond its bytes.
- BitArray.BitArray.constructor: a size beyond the bytes makes an invalid array, as in the source; the operations are specified for valid arrays only.
- IniRoundTrip.LoadRestoresExactlySaveableStores: strtod followed by format_double is a parameter of the model, any function whose results look like printed doubles.
- FileFinder.Scan.ScanChildren: the depth limit, the result limit, the visit callback and the error paths of the cited lines are not modelled; the scan is unlimited and meets no errors.
- DateTime.CurrentTimeString: takes fields that are not negative, as a clock delivers them.
- The typed getters of the INI store beyond the value itself.
- Strings in other encodings, wide strings and their conversions.
- XPath helpers, the SAX traversal and the file entry points of the XML parser.
- Iteration order and text beyond the ASCII letters in case-insensitive matching.
- The remaining utilities (sockets, transfers, logging, configuration, monitors, JSON, printing and dumps), which are plumbing or would only add easy members.
