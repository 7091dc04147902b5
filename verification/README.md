# The data layers of obs-wsc, modelled and proved

obs-wsc is a client library that talks JSON over a websocket. Under its request wrappers lie data layers that every
message passes through: a JSON parser and printer with its object store, a settings store, and byte codecs for
authentication and text. This project models those layers in Dafny and proves what they are for.

| layer | modules |
|---|---|
| UTF-8 and bit operations | `Bytes`, `Bits`, `WordBits`, `MachineWords`, `Memory`, `Utf8` |
| JSON text: grammar, lexer, parser, printer | `JsonValue`, `JsonGrammar`, `JsonLex`, `JsonParse`, `JsonComplete`, `JsonSound`, `JsonStream`, `JsonLexer`, `JsonParser`, `JsonDump`, `JsonDumper`, `JsonRoundTrip`, `JsonEscapes`, `JsonLayout`, `JsonLimits` |
| JSON values: object store, equality, copies, pack and unpack | `OrderedMap`, `MapRuns`, `Segments`, `HashTable`, `Lookup3`, `Lookup3Vectors`, `JsonEqual`, `JsonHeap`, `PackFormat`, `PackScanner`, `PackRoundTrip`, `UnpackPatterns` |
| settings store | `SortedMap`, `ItemBlock`, `DataList`, `DataListRuns`, `Settings`, `SettingsSlots`, `SettingsText`, `SettingsList`, `SettingsOverride`, `SettingsApply` |
| codecs and strings | `Sha256`, `Sha256Tables`, `Sha256Bits`, `Sha256Vectors`, `Base64`, `Base64Lines`, `Utf8Wide`, `Dstr` |

Three forms of the JSON parser stand side by side. `JsonGrammar` says what a document is and what it means, by a
syntax tree with a text and a value. `JsonParse` reads a byte sequence by recursion. `JsonParser` over `JsonLexer` over
`JsonStream` is the parser as written, with one character of pushback, a token, saved text and a depth count in fields.
The methods are proved to compute what `JsonParse` says, and `JsonComplete` and `JsonSound` prove that this is exactly
the grammar. The printer is treated alike: the methods of `JsonDumper` against the functions of `JsonDump`, and
`JsonRoundTrip` connects printer and grammar.

The hash table is a class over nodes in two circular lists, as in the source: its invariant says that the main list
splits into one contiguous segment for each bucket. `MapRuns` proves about whole runs what the methods' contracts say
about one call. The settings list is a class over singly linked items with reference counts, where a multiset of
handles stands for the pointers that callers hold. An item's block is a byte array at computed offsets.

What code and specification share is tied down once more from outside. `JsonEscapes` states the escapes by tables
written out, `JsonLayout` reads a dumped text back with an automaton that knows nothing of the tree, `UnpackPatterns`
says which values a format of `json_unpack` fits without scanning it, `SettingsSlots` says over runs of calls what each
slot holds, `Sha256Tables` derives the constants from the primes, and `Sha256Vectors` and `Lookup3Vectors` compute a
published value each, on 32-bit machine words, which `MachineWords` proves to agree with the numbers of `Bits`.

Numbers are unbounded; machine words are numbers below 2^32 with wrap-around, masks and shifts written out (`Bits`).
A real number is its text; whether a text overflows and which texts are read as equal doubles are parameters. Keys and
strings are byte sequences. The seed of the hash function and the hash function of the table are parameters.

## Where the code and its description differ

- Base64 with line breaks: the comment promises a break every 76 characters, but the code looks for a full line only
  while it writes whole groups. A line that a padded group completes gets no break (`Base64.LinesBroken`), and the size
  is still right.
- Base64 decoding: the decoder is meant to take text with line breaks, and skips them, but it counts them in the length
  that bounds its loop and selects its tail. It undoes the encoder on such text only for inputs of certain lengths
  (`Base64Lines.DecodeLines`); its size-only call is right for all (`Base64Lines.CountedLines`).
- Settings: an item has one type for its user, default and autoselect value. Setting a user or autoselect value
  overwrites it, and only setting a default looks at it. So one setter can change how the bytes of the other slots are
  read, copied, exported and released. Where the type is not that of a value, export and copy go by the type all the
  same: a member of another type (`Settings.NumberExportedAsString`), a default that is not found
  (`SettingsOverride.DefaultMisread`), a nested object whose pointer is copied as it is, without a count
  (`SettingsApply.ObjectShared`), or other bytes taken for a pointer (`SettingsOverride.NumberReleasedAsObject`). The
  model follows the type as the code does, says of each operation when it comes to its end, and proves when it does what
  its name says (`Settings.MemberIsUserValue`, `SettingsOverride.CopyReadsIff`, `SettingsApply.CopyGoodIff`). Settings
  read from JSON have user values only, so the round trips hold without a condition.
- `json_unpack` of a string with its length: in validate-only mode the length mark is left unread and taken for the
  next value, so such a format is refused (`UnpackPatterns.LengthNotValidated`).
- UCS-4 to UTF-8: the lead byte 0xF5 is refused by the decoder but written by the encoder for the characters from
  0x140000 to 0x17FFFF, which Unicode does not have (`Utf8Wide.DecodeEncode`). The comment on zero characters is not
  what happens: both functions stop at the first zero.
- UTF-8 to UCS-4: the size-only call does not look for surrogates, so it can tell a size where the writing call
  returns 0 (`Utf8Wide.DecodeIffCounted`).
- Settings from JSON text whose root is an array: the text is accepted and the settings are empty.

## Model

| member | source | states |
|---|---|---|
| `Utf8.FirstByteAnnounces` | deps/jansson/src/utf.c:47-81 | a byte gets a count above 0 if and only if some Unicode character's encoding begins with it, and the count is then the length of every such encoding |
| `Utf8.EncodeShape` | deps/jansson/src/utf.c:11-45 | the bytes written for a non-ASCII scalar value pass the full check, which gives the value back |
| `Utf8.ShapeEncodes` | deps/jansson/src/utf.c:83-137 | bytes that pass the full check are exactly the encoding of the value read from them (so with the row above the two are mutual inverses) |
| `Utf8.DecodeOfEncode` | deps/jansson/src/utf.c:139-187 | stepping through the encoding of any sequence of scalar values recovers that sequence |
| `Utf8.EncodeOfDecode` | deps/jansson/src/utf.c:139-187 | whatever can be stepped through is the encoding of the scalar values met |
| `Utf8.DecodeIff` | deps/jansson/src/utf.c:165-187 | a byte string can be stepped through to its end if and only if it is the concatenated encoding of some sequence of Unicode scalar values (section 4 of RFC 3629) |
| `Utf8.EncodingUnique` | deps/jansson/src/utf.c:139-187 | that sequence is unique |
| `Utf8.ValidPrefixIff` | deps/jansson/src/load.c:153-214 | the part of a text that the stream delivers before an encoding error is the whole text if and only if the text is UTF-8 |
| `Utf8.NoSentinelBytes` | deps/jansson/src/load.c:153-214 | no byte of UTF-8 text, read as a signed char, equals the end-of-file or the error sentinel |
| `Utf8.Utf8Encode` | deps/jansson/src/utf.c:11-45 | the buffer receives the encoding at its place and nothing else changes; outside the Unicode range the call fails and writes nothing |
| `Utf8.CheckFull` | deps/jansson/src/utf.c:83-137 | the loop accepts exactly the well-formed multi-byte forms and computes their value |
| `Utf8.Iterate` | deps/jansson/src/utf.c:139-163 | one step yields the first character and where the next begins, or fails on a malformed one |
| `Utf8.CheckString` | deps/jansson/src/utf.c:165-187 | the scan accepts exactly the encodings of scalar value sequences |
| `Utf8.CodePoints` | deps/jansson/src/utf.c:139-163 | repeated iteration yields the scalar values whose encoding the string is, or fails when it is not UTF-8 |
| `Utf8.KnownEncodings` | deps/jansson/src/utf.c:11-45 | the examples of section 7 of RFC 3629 come out byte for byte |
| `JsonStream.Stream.Deliver` | deps/jansson/src/load.c:194-209 | one byte of the character in the buffer is handed out; by the stream's invariant the line and column then are those of all that was delivered: a newline starts a line, only first bytes of characters advance the column |
| `JsonStream.Stream.Refill` | deps/jansson/src/load.c:160-192 | one whole character enters the buffer, or the stream ends in the state that tells an encoding error from the end of the text |
| `JsonStream.Stream.Get` | deps/jansson/src/load.c:153-214 | the next byte of the longest valid prefix as a signed char, then end-of-file if that prefix is the whole text and the error sentinel otherwise; position, line and column describe what was delivered |
| `JsonStream.Stream.Unget` | deps/jansson/src/load.c:216-232 | the last byte read is undone, with its position, line and column; pushing back a sentinel does nothing |
| `JsonStream.Stream.Drain` | deps/jansson/src/load.c:277-285 | the rest of the current multi-byte character is taken, continuation bytes only |
| `JsonLexer.Lexer.ScanBody` | deps/jansson/src/load.c:318-378 | the first pass over a string stops behind its closing quote exactly when every escape is complete and no control character is met |
| `JsonLexer.UnescapeBody` | deps/jansson/src/load.c:380-470 | the second pass writes exactly the characters the escapes stand for, or fails on a lone surrogate; the output cursor stays within one byte more than the saved source text |
| `JsonLexer.UnescapePiece` | deps/jansson/src/load.c:394-458 | one turn of that pass never puts the output cursor past the input cursor |
| `JsonLexer.DecodeEscape` | deps/jansson/src/load.c:295-316 | four hexadecimal digits give their value, anything else -1 |
| `JsonLexer.Lexer.ScanString` | deps/jansson/src/load.c:318-470 | a string token with the value of the characters up to the closing quote, or an invalid token |
| `JsonLexer.Lexer.ScanNumber` | deps/jansson/src/load.c:484-579 | the number token the grammar cuts off at this place, with its pushbacks, or an invalid token |
| `JsonLexer.Lexer.Scan` | deps/jansson/src/load.c:581-647 | one token: the scanner over the pushback stream agrees with the lexer defined on the remaining text |
| `JsonParser.Value` | deps/jansson/src/load.c:803-877 | the value parser agrees with the recursive definition on the remaining text, depth count included |
| `JsonParser.ArrayValue` | deps/jansson/src/load.c:763-801 | the array loop agrees with its recursive definition |
| `JsonParser.ObjectValue` | deps/jansson/src/load.c:684-761 | the object loop agrees with its recursive definition, duplicate and NUL-containing keys included |
| `JsonParser.Document` | deps/jansson/src/load.c:879-912 | the top-level checks: a container unless any value is allowed, and nothing behind it |
| `JsonParser.Loads` | deps/jansson/src/load.c:934-957 | loading a C string terminates with the value of its parse, and on success the position is the length of the text |
| `JsonComplete.ValueComplete` | deps/jansson/src/load.c:803-877 | every value of the grammar within the nesting limit is accepted with its meaning, whatever legally follows it |
| `JsonSound.ValueSound` | deps/jansson/src/load.c:803-877 | whatever the parser accepts is a value of the grammar with that meaning, within the nesting limit |
| `JsonComplete.DocumentComplete` | deps/jansson/src/load.c:879-957 | every document of the grammar loads |
| `JsonSound.DocumentSound` | deps/jansson/src/load.c:879-957 | every text that loads is UTF-8 and a document of the grammar with that value |
| `JsonSound.LoadIffGrammar` | deps/jansson/src/load.c:879-957 | loading succeeds with a value if and only if the text is UTF-8 and a document of the grammar of sections 2 to 7 of RFC 8259 with that value: container at top level unless any value is allowed, integers in 64-bit range, no lone surrogate escape, no NUL escape unless allowed, nesting within the limit |
| `JsonEscapes.HexDigits` | deps/jansson/src/load.c:295-316 | a byte is a hexadecimal digit worth v if and only if it stands at place v of 0123456789abcdef or of 0123456789ABCDEF |
| `JsonEscapes.UnicodeEscapeLoads` | deps/jansson/src/load.c:380-470 | for every Unicode scalar value and every mix of cases in its digits, the array of the one string escaped as \uXXXX, or as a surrogate pair above the basic plane, loads as the UTF-8 encoding of that value (U+0000 only where allowed) |
| `JsonEscapes.ShortEscapes` | deps/jansson/src/load.c:436-452 | the short escapes are exactly those of the letters "\/bfnrt, and mean quote, backslash, slash, backspace, form feed, line feed, carriage return and tab |
| `JsonEscapes.ShortEscapeLoads` | deps/jansson/src/load.c:380-470 | each of them loads as the byte it means |
| `JsonLimits.NestingLimit` | deps/jansson/src/load.c:803-811 | n arrays in one another load if and only if n is at most 2048 |
| `JsonLimits.IntegerLimit` | deps/jansson/src/load.c:472-579 | an integer written in decimal loads as itself if and only if it lies between -9223372036854775808 and 9223372036854775807 |
| `JsonLimits.RepeatedKeyRefused` | deps/jansson/src/load.c:684-761 | with duplicates rejected, an object that repeats the key of its first member is refused, whatever follows |
| `JsonLimits.BlankBytes` | deps/jansson/src/load.c:588-592 | the bytes skipped between tokens are space, tab, line feed and carriage return |
| `JsonDumper.Dumper.Indent` | deps/jansson/src/dump.c:45-69 | whitespace written in chunks from a fixed table is the newline and depth times width spaces |
| `JsonDumper.Dumper.DumpString` | deps/jansson/src/dump.c:71-162 | runs between escapes are flushed so that the output is the quoted text with exactly the characters the flags name escaped, surrogate pairs above the basic plane included; fails on text that is not UTF-8 |
| `JsonDumper.Dumper.Dump` | deps/jansson/src/dump.c:169-401 | the writer appends the text of the value with members in the flagged order at every depth |
| `JsonDumper.JsonDumps` | deps/jansson/src/dump.c:403-418 | the text of the value, or nothing when it cannot be written |
| `JsonDumper.CanonSort` | deps/jansson/src/dump.c:299-344 | sorting the keys and writing the values commute |
| `SortedMap.SortSorts` | deps/jansson/src/dump.c:299-318 | the sorted order is sorted and a permutation of the members |
| `SortedMap.SortedUnique` | deps/jansson/src/dump.c:299-318 | on distinct keys there is only one sorted order, so the sorting algorithm does not matter |
| `SortedMap.SortDistinct` | deps/jansson/src/dump.c:299-318 | sorting changes no lookup |
| `JsonRoundTrip.BodySyntax` | deps/jansson/src/dump.c:71-162 | the written body of any UTF-8 string is a sequence of string characters of the grammar whose value is that string |
| `JsonRoundTrip.PlainSyntax` | deps/jansson/src/dump.c:169-401 | what is written for a loadable value is a text of the grammar with that value and nesting, for every mix of flags |
| `JsonRoundTrip.RoundTrip` | deps/jansson/src/dump.c:71-418 | loading the dump of a tree gives that tree, with members in the flagged order, if and only if the tree is within what can be loaded (UTF-8 strings, no U+0000 unless allowed, 64-bit integers, distinct keys, nesting within the limit) and is a container or both sides allow any value; for every mix of indent, compact, ensure-ASCII, escape-slash and sort-keys |
| `JsonRoundTrip.UnsortedCanon` | deps/jansson/src/dump.c:169-401 | without sort-keys the order is the original one, so the tree comes back identical |
| `JsonRoundTrip.LoadedIsLoadable` | deps/jansson/src/load.c:879-957 | every loaded tree is within what the round trip covers |
| `JsonRoundTrip.NulDoesNotReturn` | deps/jansson/src/dump.c:71-162 | a tree that can be written and not loaded back unless U+0000 is allowed: a string that holds one |
| `JsonEscapes.StringShown` | deps/jansson/src/dump.c:71-162 | a string is written between quotes character by character: quote, backslash and the control characters that have one by their letter, other control characters as \u00XX, the slash as \/ only under escape-slash, a character above 0x7F as \uXXXX or a pair of them in capitals only under ensure-ASCII, and any other character as its own bytes |
| `JsonEscapes.WrittenAsItIs` | deps/jansson/src/dump.c:88-108 | a UTF-8 string is written unchanged between its quotes if and only if it has no byte below 0x20, no quote, no backslash, no slash under escape-slash and none above 0x7F under ensure-ASCII |
| `JsonEscapes.HighCharactersKept` | deps/jansson/src/dump.c:101-103 | without ensure-ASCII every character above 0x7F stands in the output as its own bytes, wherever it is in the string |
| `JsonEscapes.DecimalPlaces` | deps/jansson/src/dump.c:184-197 | decimal text is positional with the digits 0 to 9 in their order, to write and to read |
| `JsonEscapes.NegativeText` | deps/jansson/src/dump.c:184-197 | a negative integer is a minus sign and the digits of its amount |
| `JsonEscapes.Words` | deps/jansson/src/dump.c:174-181 | null, true and false are written and read as these words |
| `JsonLayout.DumpLaidOut` | deps/jansson/src/dump.c:45-401 | every dump of a tree with UTF-8 strings and keys passes the layout automaton, which reads the text alone; under ensure-ASCII all its bytes are below 0x80, and under escape-slash no slash stands without a backslash in front |
| `JsonLayout.NoBlankOutside` | deps/jansson/src/dump.c:45-69 | in a text that passes, compact and without indentation, there is no blank outside strings |
| `JsonLayout.OneBlankBehind` | deps/jansson/src/dump.c:45-69 | not compact and without indentation, outside strings a blank stands behind every comma and colon, one only, and nowhere else |
| `JsonLayout.LineIndent` | deps/jansson/src/dump.c:45-69 | every line break stands outside strings, and the line behind it begins with exactly indent times d blanks, d being the brackets open there, a closing bracket at its start counted as closed |
| `JsonLayout.LineEnds` | deps/jansson/src/dump.c:221-401 | with indentation a line ends behind every comma and opening bracket and in front of every closing one, except inside empty brackets; behind a colon stands one blank, or none when compact |
| `SortedMap.KeyLeqIff` | deps/jansson/src/dump.c:164-167 | the order of keys is that of strcmp: a prefix comes first, and otherwise the smaller byte at the first difference |
| `JsonEqual.DumpLoadsEqual` | deps/jansson/src/value.c:960-986 | in the library's own equality the tree that comes back equals the original, sorted or not |
| `JsonEqual.EqualIffSorted` | deps/jansson/src/value.c:275-291 | comparing objects by size and in one direction only, and reals as doubles, decides exactly whether the two trees are the same up to the order of members and the way doubles are written, at every depth |
| `JsonEqual.SameKeys` | deps/jansson/src/value.c:275-291 | equal sizes and one-way containment give the same key sets |
| `JsonEqual.EqualReflexive` | deps/jansson/src/value.c:960-986 | equality is reflexive |
| `JsonEqual.EqualSymmetric` | deps/jansson/src/value.c:960-986 | equality is symmetric, although it looks one way only |
| `JsonEqual.EqualTransitive` | deps/jansson/src/value.c:960-986 | equality is transitive |
| `JsonEqual.CanonEqual` | deps/jansson/src/value.c:960-986 | a tree equals itself with sorted members |
| `JsonHeap.ValuesEqual` | deps/jansson/src/value.c:960-986 | on the object graph the comparison, with its shortcut for one and the same container, computes that equality |
| `JsonHeap.ObjectEqual` | deps/jansson/src/value.c:275-291 | the loop with a lookup for each member computes it for objects |
| `JsonHeap.ArrayEqual` | deps/jansson/src/value.c:584-604 | the loop by index computes it for arrays |
| `JsonHeap.DeepCopy` | deps/jansson/src/value.c:1018-1045 | the copy reads as the same tree and every container in it is fresh; the original is unchanged |
| `JsonHeap.ObjectDeepCopy` | deps/jansson/src/value.c:310-333 | an object's copy has the members in the same order, every container fresh |
| `JsonHeap.ArrayDeepCopy` | deps/jansson/src/value.c:621-634 | an array's copy has the items in order, every container fresh |
| `HashTable.ListInsert` | deps/jansson/src/hashtable.c:46-52 | linking in front of a node turns the circular list into the circular list with the node inserted there |
| `HashTable.ListRemove` | deps/jansson/src/hashtable.c:54-58 | unlinking turns it into the circular list without the node |
| `Segments.InsertSegmented` | deps/jansson/src/hashtable.c:65-78 | putting a pair in front of its bucket's segment, or at the end for an empty bucket, keeps all segments contiguous, disjoint and complete |
| `Segments.RemoveSegmented` | deps/jansson/src/hashtable.c:106-137 | taking a pair out keeps them so |
| `HashTable.InsertBucketed` | deps/jansson/src/hashtable.c:65-78 | the first and last pointers after an insertion are the ends of each bucket's segment |
| `HashTable.RemoveBucketed` | deps/jansson/src/hashtable.c:120-130 | the four-way update of first and last on deletion gives the ends of each bucket's segment |
| `HashTable.Table.BucketHolds` | deps/jansson/src/hashtable.c:80-103 | every pair with a given key stands in the segment of the bucket that its hash selects |
| `HashTable.Table.InsertToBucket` | deps/jansson/src/hashtable.c:65-78 | the main list gains the pair and every bucket stays a contiguous segment holding exactly the pairs whose hash selects it |
| `HashTable.Table.FindPair` | deps/jansson/src/hashtable.c:80-103 | walking from first to last finds the pair with the key if there is one and otherwise returns null |
| `HashTable.Table.IndexOf` | deps/jansson/src/hashtable.c:219-240 | masking the hash selects the bucket that the remainder by the bucket count selects |
| `HashTable.Table.DoRehash` | deps/jansson/src/hashtable.c:153-188 | relinking while walking into twice as many buckets keeps the bucket structure, the contents and the iteration order |
| `HashTable.Table.Set` | deps/jansson/src/hashtable.c:219-268 | the map with the key set: a new key goes to the end of the insertion order, an old one keeps its place; the structure is kept and the size does not exceed the bucket count |
| `HashTable.Table.Get` | deps/jansson/src/hashtable.c:270-284 | the value the map holds for the key |
| `HashTable.Table.Del` | deps/jansson/src/hashtable.c:286-290 | the map without the key, and whether it was there |
| `HashTable.Table.Clear` | deps/jansson/src/hashtable.c:292-307 | the empty map |
| `HashTable.Table.IterNext` | deps/jansson/src/hashtable.c:330-336 | the next pair in insertion order, null behind the last |
| `HashTable.Table.IterAt` | deps/jansson/src/hashtable.c:314-328 | the pair with the key, or null |
| `HashTable.Table.IterSet` | deps/jansson/src/hashtable.c:350-356 | the map with the key at the iterator set |
| `HashTable.Table.Listing` | deps/jansson/src/hashtable.c:309-348 | iteration from the first pair lists the map in order |
| `HashTable.Table.Run` | deps/jansson/src/hashtable.c:219-307 | after any sequence of sets, deletions and clears on a new table its contents are the replay of that sequence |
| `MapRuns.LookupFindsLastSet` | deps/jansson/src/hashtable.c:219-307 | after any such sequence a lookup finds the value last set and not deleted or cleared since |
| `MapRuns.IterationIsInsertionOrder` | deps/jansson/src/hashtable.c:219-348 | after any such sequence iteration lists the keys in the order in which their present stay in the map began |
| `Lookup3.MixBijective` | deps/jansson/src/lookup3.h:123-131 | mixing is a bijection on triples of words |
| `Lookup3.OneBlockDiffers` | deps/jansson/src/lookup3.h:196-381 | keys of one length that differ in exactly one full block leave the block loop in different states |
| `Lookup3.MaskedWord` | deps/jansson/src/lookup3.h:250-265 | masking a word read past the key's end leaves the key's bytes only |
| `Lookup3.HashWords` | deps/jansson/src/lookup3.h:205-287 | the path that reads 32-bit words returns the hash of the key, whatever stands in the rest of the last word |
| `Lookup3.HashHalves` | deps/jansson/src/lookup3.h:289-335 | the path that reads 16-bit halves returns the same hash |
| `Lookup3.HashBytes` | deps/jansson/src/lookup3.h:336-380 | the bytewise path returns the same hash |
| `Lookup3Vectors.HashOfSentence` | deps/jansson/src/lookup3.h:123-381 | the function's author's example: hashlittle of "Four score and seven years ago" with seed 0 is 0x17770551 |
| `MachineWords.WordPlus` | deps/jansson/src/lookup3.h:123-167 | addition modulo 2^32 on numbers is addition of 32-bit machine words |
| `MachineWords.WordXor` | deps/jansson/src/lookup3.h:123-167 | so is exclusive or on numbers that of machine words |
| `MachineWords.NumberBack` | deps/jansson/src/lookup3.h:123-167 | a number below 2^32 can be read off its machine word, so what is computed on words holds of numbers |
| `ItemBlock.AlignRoundsUp` | src/data.c:63-80 | the alignment arithmetic rounds up to the next multiple and leaves multiples alone |
| `ItemBlock.Shape.Layout` | src/data.c:63-122 | the three slots are in order, do not overlap, are inside the total size and aligned where a value stands behind another |
| `ItemBlock.Item.constructor` | src/data.c:257-293 | a new item holds its name and its one value in the slot asked for, well laid out |
| `ItemBlock.Item.EnsureCapacity` | src/data.c:332-345 | the block has room for the total size and begins with its old bytes |
| `ItemBlock.MovedReads` | src/data.c:356-392 | moving the default and autoselect slots together keeps their bytes |
| `ItemBlock.ShiftedReads` | src/data.c:394-419 | moving the autoselect slot keeps its bytes and the user value's |
| `ItemBlock.RealignedReads` | src/data.c:421-442 | rounding the slot lengths up before the autoselect value moves nothing |
| `ItemBlock.Item.SetData` | src/data.c:367-392 | the user value is the given bytes, the other two slots keep theirs through shift and reallocation, and the layout stays valid |
| `ItemBlock.Item.SetDefaultData` | src/data.c:394-419 | the same for the default value |
| `ItemBlock.Item.SetAutoselectData` | src/data.c:421-442 | the same for the autoselect value |
| `ItemBlock.Item.UnsetUserValue` | src/data.c:1292-1305 | only the user value goes |
| `ItemBlock.Item.UnsetDefaultValue` | src/data.c:1307-1320 | only the default value goes |
| `ItemBlock.Item.UnsetAutoselectValue` | src/data.c:1322-1329 | only the autoselect value goes |
| `ItemBlock.Item.Clear` | src/data.c:880-906 | only the user value goes, the others move up with their bytes |
| `ItemBlock.Item.GetItemData` | src/data.c:92-97 | the pointer is at the bytes of the first present of user, default and autoselect, null when there is none |
| `ItemBlock.Item.GetItemDefaultData` | src/data.c:104-107 | the pointer is at the default value's bytes, null when there is none |
| `ItemBlock.Item.GetItemAutoselectData` | src/data.c:114-117 | the pointer is at the autoselect value's bytes, null when there is none |
| `DataList.DataList.GetItem` | src/data.c:690-705 | the item with the name, or null if the list has none |
| `DataList.DataList.FindLink` | src/data.c:295-312 | the link that points at an item, if the item is in the list |
| `DataList.DataList.First` | src/data.c:1334-1342 | a counted handle on the first item |
| `DataList.DataList.ByName` | src/data.c:1344-1353 | a counted handle on the named item |
| `DataList.DataList.Next` | src/data.c:1355-1370 | the handle is given up and one on the next item is taken, which an item out of the list does not have; the item goes if nothing else holds it |
| `DataList.DataList.Release` | src/data.c:1372-1381 | one handle less; the item goes when it is neither linked nor held |
| `DataList.DataList.Remove` | src/data.c:1383-1389 | the item leaves the list, which stays sorted; it lives on while handles hold it |
| `DataList.DataList.Erase` | src/data.c:870-878 | the named item leaves the list; no handle changes |
| `DataList.DataList.Detach` | src/data.c:314-322 | unlinking an item in the list leaves the others in order, and does nothing to an item out of it |
| `DataList.DataList.FindPlace` | src/data.c:712-737 | the search with counted iteration stops with the previous item below the name and the next one above it, all other counts unchanged |
| `DataList.DataList.InsertItem` | src/data.c:707-746 | a new item goes to its place in name order with one count; all existing handles and counts are unchanged |
| `DataList.DataList.Reallocate` | src/data.c:324-345 | the copy takes the old item's place in the list, its content, its name and its handle |
| `DataList.DataList.SetValue` | src/data.c:367-392 | the value of one item changes, moved or not, and the order does not |
| `DataList.DataList.SetItem` | src/data.c:748-762 | the list is the name-sorted map with the name put; handles are unchanged |
| `DataListRuns.Run` | src/data.c:690-878 | after any sequence of sets, erases, removals through a handle and iterations the list is the replay of that sequence, no handle is left, and every item that is not freed is in the list |
| `DataListRuns.LookupFindsLastSet` | src/data.c:690-878 | after any such sequence the names are in order and a lookup finds the value last set and not erased or removed since |
| `SortedMap.PutLaw` | src/data.c:707-762 | putting keeps a sorted map without duplicate names and changes the one lookup |
| `Settings.ImportLaw` | src/data.c:446-505 | importing an object gives name-sorted settings with a user value for exactly the members that are not null |
| `Settings.ExportDefined` | src/data.c:507-585 | the export comes to its end if and only if no item's bytes are followed as an object or array pointer that they are not |
| `Settings.ExportLaw` | src/data.c:507-585 | where it comes to its end, exporting gives name-sorted members, one for each name for which the writer of the item's one type writes a member |
| `Settings.MemberIsUserValue` | src/data.c:560-585 | an item's member is its user value if and only if the item's type is the user value's kind |
| `Settings.ExportsUserValue` | src/data.c:560-585 | so in the exported object, for every name with a user value that can be written |
| `Settings.NumberExportedAsString` | src/data.c:560-585 | an integer whose name then gets an autoselect string: the member, if there is one, is a string |
| `Settings.MembersNormal` | src/data.c:446-585 | importing an object and exporting it gives the object with null members and non-object array elements dropped at every depth and keys in name order |
| `Settings.ValueNormal` | src/data.c:446-585 | the same for a value inside |
| `Settings.NormalIdempotent` | src/data.c:446-585 | that normalisation is idempotent |
| `Settings.DataReturns` | src/data.c:446-585 | exporting stored settings and importing the result gives the same settings |
| `Settings.SettingsRoundTrip` | src/data.c:597-663 | settings read from any text that loads can be written, and reading that text again gives the same settings |
| `SettingsList.SetUserItem` | src/data.c:748-762 | the name has the user value and its item the value's type, unless the value replaced is released as a pointer it is not |
| `SettingsList.SetDefaultItem` | src/data.c:764-781 | the name has the default value, unless its item is of another type, which is left alone |
| `SettingsList.SetAutoselectItem` | src/data.c:783-797 | the name has the autoselect value and its item that value's type, whatever the types of its other values |
| `SettingsSlots.SetterLaw` | src/data.c:748-797 | a call of one of the three setters puts its value into its own slot and gives the item the value's type, except that a default of another type than the item's changes nothing at all; no call changes another slot, another name or the order |
| `SettingsSlots.SlotsHoldLastSet` | src/data.c:748-797 | after any run of calls on new settings each slot of each name holds what was last set in it by a call that counted, and each item has the type of the last call that counted for its name |
| `SettingsSlots.UserValueStays` | src/data.c:748-797 | no calls of the other two setters and none on other names change a user value |
| `SettingsSlots.DefaultBehindUser` | src/data.c:764-781 | a default set behind a user value of its type leaves the user value to be exported |
| `SettingsSlots.OneTypeReleasable` | src/data.c:394-480 | where all calls for a name agree in type, every value they replace is released as what it is |
| `SettingsText.LeafExported` | src/data.c:509-585 | a single string, number or truth value is exported as an object on three lines, its member indented by four blanks, with true and false as these words and a number in decimal |
| `SettingsText.LeafImported` | src/data.c:448-505 | a single member of JSON text becomes the user value its literal denotes, and nothing else |
| `SettingsText.RepeatedNameRefused` | src/data.c:597-617 | settings are not read from text in which a key is repeated |
| `SettingsText.ElementKept` | src/data.c:468-487 | an object in an array is kept in its place, anything else in it is dropped, whatever stands around |
| `SettingsText.ElementWritten` | src/data.c:543-558 | the objects of an array are written each in its place |
| `SettingsText.ForeignWrittenAsRead` | src/data.c:509-532 | bytes of another type are written as the value they are read as |
| `SettingsList.AddJsonObjectData` | src/data.c:448-456 | adding an object's members one by one to the list performs the import |
| `SettingsList.WscDataToJson` | src/data.c:560-585 | walking the list with counted handles performs the export and leaves list and handles as they were |
| `SettingsOverride.ApplyLaw` | src/data.c:832-868 | on values: applying comes to its end if and only if neither a value to copy nor one to release is followed as a pointer that it is not; then every name with a value to copy has the copy and the source's type, keeps its default and autoselect bytes, and every other name is unchanged |
| `SettingsOverride.ApplyIdempotent` | src/data.c:855-868 | applying twice is applying once |
| `SettingsOverride.ApplyToEmpty` | src/data.c:799-868 | applied to nothing gives the copies of the user values alone, or does not come to its end |
| `SettingsOverride.BareTwice` | src/data.c:799-853 | a copy is copied to its like, at every depth |
| `SettingsOverride.CopyReadsIff` | src/data.c:832-868 | a name's copy reads as a value if and only if the source's type is its user value's kind, and the target's other slots read as before if and only if there are none or the target's type already was the source's |
| `SettingsOverride.DefaultMisread` | src/data.c:832-868 | a default string is no longer found once a number was applied to its name |
| `SettingsOverride.NumberReleasedAsObject` | src/data.c:182-195 | a number whose name then got an autoselect object is released as an object when another number is applied |
| `SettingsOverride.FollowedIff` | src/data.c:536-868 | what can be exported to the end can be copied to the end, and the other way round |
| `SettingsOverride.CopyExports` | src/data.c:536-868 | a copy is exported as the same JSON as the original, if that holds no null reference |
| `SettingsOverride.NullNotCopied` | src/data.c:536-868 | a null object reference is exported as an object and not copied |
| `SettingsApply.CopyValue` | src/data.c:799-853 | by the item's type: a nested object or array is copied to one made of new objects, but for those behind references under the type of a direct value, which are shared; a direct value is copied as it is; not ok exactly where other bytes are followed as a pointer |
| `SettingsApply.CopyObject` | src/data.c:799-808 | the same inside a nested object |
| `SettingsApply.CopyArray` | src/data.c:810-830 | the same inside the array's objects |
| `SettingsApply.Apply` | src/data.c:855-868 | on the object graph: ok exactly where the override is defined, and then the target is the override; it gains the shared objects and new ones only, and new ones only if and only if no reference of the source stands, at any depth copied, under the type of a direct value; every name keeps its default and autoselect slots and the source is unchanged |
| `SettingsApply.LooseIff` | src/data.c:799-853 | copying a value shares nothing if and only if no reference in it stands under the type of a direct value |
| `SettingsApply.CopyGoodIff` | src/data.c:832-868 | a name's copy reads as a value, shares nothing with the source and leaves the target's other slots readable as they were if and only if the source's type is its user value's kind, at every depth that is copied, and the target's type, if it has other slots, already was that kind |
| `SettingsApply.ObjectShared` | src/data.c:832-868 | an object set under a name whose item then gets an autoselect number is shared by the target, not copied |
| `PackScanner.Scanner.NextToken` | deps/jansson/src/pack_unpack.c:65-100 | the next token of the format, or the zero at its end, without reading past the zero; blanks, commas and colons are skipped |
| `PackScanner.Scanner.PrevToken` | deps/jansson/src/pack_unpack.c:102-106 | the token goes back; its precondition, met at every call, is that none was pushed back since the last read |
| `PackScanner.JsonPack` | deps/jansson/src/pack_unpack.c:753-785 | packing any format terminates with the value its recursive definition gives, where a key is a C string: it ends at its first zero |
| `PackScanner.Pack` | deps/jansson/src/pack_unpack.c:315-383 | one value, with the scanner left on the last token of it |
| `PackScanner.PackObject` | deps/jansson/src/pack_unpack.c:206-260 | the object loop agrees with its recursive definition, keys cut at their first zero |
| `PackScanner.PackArray` | deps/jansson/src/pack_unpack.c:262-291 | the array loop agrees with its recursive definition |
| `PackScanner.ReadString` | deps/jansson/src/pack_unpack.c:126-204 | one string argument or several joined, up to their lengths or their first zero |
| `PackScanner.JsonUnpack` | deps/jansson/src/pack_unpack.c:811-847 | unpacking any format terminates with the outcome its recursive definition gives |
| `PackScanner.Unpack` | deps/jansson/src/pack_unpack.c:601-751 | one value, with the scanner left on the last token of it |
| `PackScanner.UnpackObject` | deps/jansson/src/pack_unpack.c:387-529 | the object loop with its key set agrees with its recursive definition |
| `PackScanner.UnpackArray` | deps/jansson/src/pack_unpack.c:531-599 | the array loop agrees with its recursive definition |
| `PackRoundTrip.PackTyped` | deps/jansson/src/pack_unpack.c:206-383 | the format and arguments of a typed value pack to that value, at every depth: objects, arrays, integers, booleans, reals, null, given values (o and O), strings whole, with lengths or joined from parts, and strings and values that may be null (s?, o?), which then pack to null |
| `PackRoundTrip.PartsJoined` | deps/jansson/src/pack_unpack.c:120-204 | the parts of a string are joined in their order, each cut to the length behind it or at its zero |
| `PackRoundTrip.NullTextPacked` | deps/jansson/src/pack_unpack.c:292-313 | a null or ill-formed string is refused, and with a question mark packed as null |
| `PackRoundTrip.NullJsonPacked` | deps/jansson/src/pack_unpack.c:342-377 | a null value is refused, and with a question mark packed as null |
| `PackRoundTrip.KeyCutAtZero` | deps/jansson/src/pack_unpack.c:206-260 | a key given with a length and a zero inside is set as what stands before the zero |
| `PackRoundTrip.StrictNamesEveryKey` | deps/jansson/src/pack_unpack.c:391-520 | in strict mode, optional keys or not, an object unpack that gets to its end succeeds if and only if every key of the object was named |
| `PackRoundTrip.UnpackCloses` | deps/jansson/src/pack_unpack.c:387-529 | an object unpack succeeds if and only if it reaches its end and passes the check there |
| `PackRoundTrip.CountIsEnough` | deps/jansson/src/pack_unpack.c:478-520 | without optional keys comparing the counts decides the same as looking every key up |
| `UnpackPatterns.UnpackPattern` | deps/jansson/src/pack_unpack.c:385-751 | for every well-formed format, strict or not, storing or only validating: unpacking succeeds if and only if the value fits the format read as a pattern, and then every target gets the value at its place, i cut to 32 bits, F taking integers and reals, o and O the value itself, and targets below a missing optional key nothing |
| `UnpackPatterns.UnpackWhole` | deps/jansson/src/pack_unpack.c:816-850 | the same for a whole format, behind which nothing may follow |
| `UnpackPatterns.SkippedUntouched` | deps/jansson/src/pack_unpack.c:440-451 | every target below a missing optional key stays untouched |
| `UnpackPatterns.NarrowedInt` | deps/jansson/src/pack_unpack.c:647-652 | a value stored in an int differs from it by a multiple of 2^32 and is it where it fits |
| `UnpackPatterns.LengthNotValidated` | deps/jansson/src/pack_unpack.c:607-642 | where nothing is stored, the length mark behind a string is not read, so the format is refused; where targets are stored, they get string and length |
| `UnpackPatterns.UnpackPacked` | deps/jansson/src/pack_unpack.c:206-751 | unpacking a packed value with the pattern that reads it back returns the packed arguments, strict or not, and a null for what was packed as null |
| `UnpackPatterns.SameFormat` | deps/jansson/src/pack_unpack.c:206-751 | where no modifier and no question mark is used, that pattern's format is the one packed with |
| `UnpackPatterns.IgnoredBytes` | deps/jansson/src/pack_unpack.c:75-83 | between tokens exactly blanks, tabs, newlines, commas and colons are skipped |
| `Sha256.ZeroCountIsLeast` | src/external/sha256.c:114-135 | the padding has the fewest zero bytes that fit (section 5.1.1 of FIPS 180-4) |
| `Sha256.PackedIsBigEndian` | src/external/sha256.c:48-49 | four shifted bytes make the big-endian word |
| `Sha256.Context.Expand` | src/external/sha256.c:48-51 | the schedule of section 6.2.2 |
| `Sha256.Context.Transform` | src/external/sha256.c:44-83 | one block is compressed as section 6.2.2 says |
| `Sha256.Context.Update` | src/external/sha256.c:99-112 | after any updates the context stands for the concatenation of what was fed |
| `Sha256.PaddedBlocks` | src/external/sha256.c:114-135 | the padded message behind the last whole block is one block or two, by whether 56 bytes are buffered |
| `Sha256.Context.Pad` | src/external/sha256.c:114-135 | both cases leave the state and buffer of the padded message up to its length field |
| `Sha256.Context.Final` | src/external/sha256.c:114-157 | for any split into updates the digest is the hash of the whole message: padding of section 5.1.1, then section 6.2.2 for each block |
| `Sha256Tables.FirstPrimes` | src/external/sha256.c:32-41 | the primes used below are exactly the primes up to 311 in order, 64 of them |
| `Sha256Tables.RoundConstants` | src/external/sha256.c:32-41 | each round constant is the first 32 bits of the fractional part of the cube root of its prime (section 4.2.2 of FIPS 180-4) |
| `Sha256Tables.InitialHash` | src/external/sha256.c:85-98 | each initial word is that of the square root of its prime (section 5.3.3) |
| `Sha256Bits.RotateBit` | src/external/sha256.c:21 | bit i of a word rotated by n is bit i + n of the word, around its end |
| `Sha256Bits.ChBit` | src/external/sha256.c:23 | bit by bit, Ch takes the second word where the first has a one and else the third |
| `Sha256Bits.MajBit` | src/external/sha256.c:24 | bit by bit, Maj has a one where at least two words have one |
| `Sha256Bits.SigmaBits` | src/external/sha256.c:25-29 | bit by bit, the four sigma functions are the odd parity of three bits, at the distances the standard lists |
| `WordBits.BitsDetermine` | src/external/sha256.c:20-29 | words are determined by their bits, so the rows above say all of these functions |
| `Sha256Vectors.DigestOfAbc` | src/external/sha256.c:44-157 | the standard's example: the digest of "abc" is ba7816bf 8f01cfea 414140de 5dae2223 b00361a3 96177a9c b410ff61 f20015ad |
| `Base64.Alphabet` | src/external/base64.c:18-36 | the characters of the values 0 to 63, to write and to read, are A to Z, a to z, 0 to 9, plus and slash, in this order (table 1 of RFC 4648) |
| `Base64.OtherCharacters` | src/external/base64.c:21-36 | any other character is read as its own code |
| `Base64.TestVectors` | src/external/base64.c:37-84 | the examples of section 10 of RFC 4648 with three bytes and more come out character for character |
| `Base64.ShortVectors` | src/external/base64.c:37-84 | and those with one and two |
| `Base64.PlainIsEncode` | src/external/base64.c:37-84 | without line breaks the encoding of section 4 of RFC 4648 is written |
| `Base64.WrittenSize` | src/external/base64.c:44-48 | for both settings the size-only call tells the size of what is written |
| `Base64.Base64Encode` | src/external/base64.c:37-84 | both modes: the size alone, or the text written and nothing behind it |
| `Base64.LinesBroken` | src/external/base64.c:51-83 | with line breaks the text is the plain one with a break after every full 76 characters if and only if a padded group does not complete the last line; otherwise only that one break is missing |
| `Base64.LineBreakMissing` | src/external/base64.c:51-83 | an input whose last full line gets no break |
| `Base64.NoLineBreaks` | src/external/base64.c:51-83 | the plain text has no line break |
| `Base64.DecodeEncode` | src/external/base64.c:86-131 | decoding the plain text of any non-empty input gives the input |
| `Base64.PlainDecoded` | src/external/base64.c:86-131 | on text without line breaks the writing call writes, and the size-only call counts, the decoding of section 4 of RFC 4648 |
| `Base64.Base64Decode` | src/external/base64.c:86-131 | both modes of the decoder on any text: the count alone, or the bytes written and nothing behind them; not ok exactly where the loop, which skips line breaks but counts them in its bound, reads behind the text |
| `Base64Lines.DecodeLines` | src/external/base64.c:37-131 | decoding the text with line breaks of a non-empty input of n bytes gives the input if and only if, with k = n / 57 line breaks and w = n / 3 whole groups, k leaves 1 by 4 without padding, or k is a multiple of 4 and no line break stands in front of the end or of the padded group |
| `Base64Lines.CountedLines` | src/external/base64.c:101-111 | the size-only call on that text tells n for every input |
| `Base64Lines.LinesDoNotReturn` | src/external/base64.c:37-131 | 58 bytes whose text with line breaks does not decode to them |
| `Utf8Wide.LeadBytes` | src/external/utf8.c:312-353 | the masks and shifts on the character's bytes in memory give the lead byte of each length |
| `Utf8Wide.Continuations` | src/external/utf8.c:312-353 | and its 6-bit groups as continuation bytes |
| `Utf8Wide.WcharToUtf8` | src/external/utf8.c:258-364 | both modes: the size alone, or the text written and nothing behind it; 0 on a surrogate, a negative character or too small an output, without a write past the output |
| `Utf8Wide.ReadLead` | src/external/utf8.c:151-177 | the chain of masks recognises the announced length and payload |
| `Utf8Wide.ReadOne` | src/external/utf8.c:211-217 | a character assembled from its last byte is the one assembled from its first |
| `Utf8Wide.Utf8ToWchar` | src/external/utf8.c:130-235 | both modes: the count alone, or the characters written and nothing behind them; 0 on refused text or too small an output, without a write past the output |
| `Utf8Wide.DecodedFits` | src/external/utf8.c:211-217 | every character fits 31 bits, so no shift loses a bit |
| `Utf8Wide.DecodeIffCounted` | src/external/utf8.c:130-235 | the size-only call tells the number of characters, and the writing call converts exactly the texts it counts that have no surrogate |
| `Utf8Wide.SurrogateCounted` | src/external/utf8.c:130-235 | a text that the size-only call counts and the writing call refuses |
| `Utf8Wide.DecodeEncode` | src/external/utf8.c:130-364 | decoding undoes encoding on a wide string that encodes if and only if it has no character whose lead byte is 0xF5 |
| `Utf8Wide.RefusedOnTheWayBack` | src/external/utf8.c:90-101 | a character that encodes and does not decode |
| `Utf8Wide.ScalarsDecode` | src/external/utf8.c:130-364 | on nonzero Unicode scalar values the encoder writes UTF-8 and the decoder undoes it |
| `Dstr.FindIsFirst` | src/external/dstr.c:616-671 | the search finds the first occurrence |
| `Dstr.PiecesAreTheCut` | src/external/dstr.c:600-672 | the pieces between the occurrences, taken left to right without overlap, are the one way to cut the text at every place where the pattern is met |
| `Dstr.ReplacedLength` | src/external/dstr.c:628-645 | the length computed from the number of occurrences is the true length |
| `Dstr.Dstr.Replace` | src/external/dstr.c:600-672 | for a non-empty pattern the buffer holds the text with every piece joined by the replacement, with the true length, in the shrinking, growing and same-length cases, every write inside the capacity |
| `Dstr.Splice` | src/external/dstr.c:619-629 | one replacement moves the tail with its zero and leaves the text with the occurrence exchanged |
| `Dstr.Substitute` | src/external/dstr.c:616-661 | the loop replaces all occurrences in place and counts them |
| `Dstr.Overwrite` | src/external/dstr.c:665-670 | the same-length loop replaces all occurrences |
| `Dstr.Measure` | src/external/dstr.c:276-293 | the first pass of the splitter counts the entries and their bytes, for any character but the terminator |
| `Dstr.StrListSplit` | src/external/dstr.c:262-331 | the second pass fills the table with one entry for each kept piece and a null, and the pool to its last byte |
| `Dstr.PackedAt` | src/external/dstr.c:305-325 | every table entry points at its piece and a zero |

## Left out

- LoadIffGrammar: with the flag that disables the end-of-file check the parser reads one value and ignores the rest; that flag is modelled in the parser and not in the theorem.
- Reallocate: `realloc` moves an item, so any other pointer to it dangles; its contract asks for at most one handle on the item, which is what the source needs of its callers.
- SetValue: asks for at most one handle on an item that has to grow, for the same reason.
- SetItem: asks that nobody holds the named item when it has to grow, for the same reason.
- Replace: an empty pattern is not covered; the source loops forever on it.
- Base64Decode: empty text and a single '=' are not covered; on them the source reads in front of its input.
- StrListSplit: the zero byte as the split character is not covered, and so not in Measure; with it `strchr` finds the terminator and the source goes on behind the text.
- Apply: asks for acyclic data with the target outside the source, or the target itself; on cyclic data the source does not end.
- Loads: texts with a zero byte inside, as `json_loadb` allows them, are not covered; the stream takes a zero byte for an empty buffer.
- Sockets, polling, connection set-up and the pending-request list.
- The request wrappers, which only pack and unpack over these layers.
- The texts of load and pack errors, and the source positions kept for them in pack and unpack.
- Conversion between a double and its text, and the precision flag of the printer: a real is its text.
- Allocation failure and `size_t` wrap-around.
- Reference counts of JSON values, and the `visited` marks against circular references: values are trees or acyclic graphs.
- The wrap-around of the indentation width at 32 bits.
- The objects behind references in default and autoselect slots of settings: the slots are modelled, what they lead to is not read, since nothing modelled follows them but their release.
- The reference counts of settings objects and arrays, and the destruction of one whose last reference a setter replaces; that a pointer released is one is modelled.
- What a foreign direct value reads as (a number read as a string, say): a parameter of the export.
- Nested settings in the conversion from and to JSON are modelled on values: their sharing and counts are not; copying them on apply is modelled on the object graph.
- Destroying a settings list while handles on its items live.
- The item block and the list are proved apart: the list's values are abstract, and the block's growth appears in the list as the choice whether the item moves.
- The big-endian half of `hashlittle` and the alignment test that selects the path; all three paths are proved for every alignment.
- The flags of the UCS-4 converters (only 0) and their Windows branch.
- Growing, inserting into, removing from and extending JSON arrays, and the three object update functions: they would only add easy members.
- The rest of the dynamic string and array helpers, for the same reason.
- Hash seeding, logging, threads and platform shims.
