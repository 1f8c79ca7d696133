# Proofs about IMQ's JSON engine and cluster membership

IMQ is a message queue whose nodes talk to each other in JSON. This project models, in Dafny, the two parts that
everything else rests on, and proves what they are for:

* **The JSON library `src/json.hpp`**: the values and their comparisons, `diff` and `patch`, JSON Pointer, `flatten` and
  `unflatten`, the CBOR and MessagePack codecs, and the text path `dump`, `escape_string`, the re2c lexer, `get_string`,
  `get_number` and the recursive-descent parser.
* **Cluster membership**: the table of 30 slots (`Cluster`), the registration handler and the join (`IMQNode`), the wire
  form of an address (`HostAndPort`) and the failure detector (`Health`).

`dafny verify dfyconfig.toml` checks the whole project.

## How it is modelled

A `std::string` or `std::vector<uint8_t>` is a sequence of bytes. A JSON value is a datatype without floating-point
numbers and discarded values; an object is a sequence of members, and `Ordered` says that their keys are strictly
increasing, as in a `std::map`. Exceptions are results. `size_t` arithmetic, the 32-bit `unsigned` of `HostAndPort` and of
the indentation, and the 64-bit integers are written out where they can wrap or cut.

Each piece of code that works step by step is a method (or a class with fields) that is proved against a function, and
the laws are proved about that function. Where a standard says what the bytes are, the standard is written down a second
time, in literal bytes and without the functions that it is about, and the two are proved to agree:

| files | what they hold |
|---|---|
| `ByteStrings`, `Decimal`, `Utf8`, `Numbers` | byte strings, numerals, UTF-8, integers as text |
| `JsonValue`, `Ordering`, `OrderLaws` | values, objects as maps, `operator==`, `operator<` |
| `JsonPointer`, `PointerGrammar`, `JsonAccess` | RFC 6901: the code, the grammar in bytes, and single steps along a pointer |
| `JsonPatch`, `JsonPatchLaws`, `JsonPatchDocument`, `JsonDiffLaws` | `diff` and `patch`, and what diff writes |
| `PatchSemantics`, `PatchOperations` | what each operation of RFC 6902 leaves behind, and when it is refused |
| `JsonFlatten`, `JsonFlattenLaws`, `JsonUnflattenLaws`, `UnflattenSemantics` | `flatten` and `unflatten` |
| `BinaryFormat`, `Cbor*`, `MsgPack*` | the binary codecs; `CborFormat` and `MsgPackFormat` hold the formats in literal bytes |
| `JsonString`, `StringGrammar`, `StringMeaning`, `Lexer`, `LexerLaws` | strings, what they mean, and the automaton of `scan` |
| `NumberGrammar`, `TokenGrammar` | what `scan` accepts as a number, and as any token |
| `JsonGrammar`, `JsonGrammarLaws`, `JsonAcceptance`, `JsonParser`, `ParseErrors` | the grammar of JSON over tokens and the parser |
| `TextGrammar` | the grammar of JSON texts over bytes |
| `JsonDump`, `DumpLayout`, `DumpTokens` | `dump`, and its layout told from the text alone |
| `TextRoundTrip`, `TextRejection` | for which values parsing undoes `dump` |
| `HostAndPort`, `ClusterTable`, `Cluster`, `ImqNode`, `Membership`, `Health` | membership |
| `RpcMessages`, `ReplyLaws`, `RpcWire`, `RpcText` | requests and responses as JSON, a join as bytes, and these bytes spelled out |

## What the proofs found

* The documented "always true" of `diff` (`src/json.hpp:12739-12743`) fails once an operation has to address an array
  index above 2^31 - 1, because `patch` reads indices with `std::stoi`. `PatchUndoesDiff` gives the exact condition.
* `operation_add` reaches the `assert(false)` that it assumes to be unreachable (`src/json.hpp:12565-12569`) exactly where
  the parent exists and is a boolean, a number or a string: `AddAssertsIffParentPrimitive`.
* The documented claim for `unflatten` (`src/json.hpp:12409-12411`) fails for an object whose key `"0"` is visited before its
  other keys: `{"0": true}` comes back as `[true]`. `UnflattenUndoesFlatten` gives the exact condition, which also bounds
  the length of arrays.
* `operator<` is not transitive when an unsigned number does not fit into `int64_t`; `TransitiveIffUnsignedFits` shows that
  this is the exact bound for every value, however deep the number stands in it.
* MessagePack writes no header at all for sizes of 2^32 and above; `MsgPackRoundTripIff` shows that the round trip holds
  exactly below that.
* A string that is not UTF-8 is dumped as it is and then refused by the parser: `DumpIsParsedIffUtf8`. A join over
  the wire succeeds exactly if the hosts of the joiner and of the leader's members are UTF-8 (`WireJoinIsStep`).
* An address does not survive its own text form if its host has a colon, or if its port is above 2^31 - 1 behind a host of
  less than 2^32 - 1 bytes. `FromStringUndoesToString` is an if-and-only-if; at exactly 2^32 - 1 bytes the port is read from
  the beginning of the host (`LongHostReadsItself`), and longer hosts are never read back.
* `patch` leaves RFC 6902 in four places. `add` creates missing parents below the first token (`AddMakesParent`; where the
  parent exists it does what the RFC says: `NothingIsMade`). `remove` below a boolean, a number, a string or null succeeds
  and changes nothing (`RemoveBelowPrimitive`). `copy` into an array overwrites an element, and agrees with the addition
  that the RFC asks for exactly behind the last one (`CopyIntoArray`). The last token of `add` and `remove` may be
  anything that `std::stoi` reads, so that `01`, which is refused further in front, is an index there (`LastTokenIsLoose`).
* A CBOR negative number below -2^63 wraps around and is read as a non-negative one: `NegativeIsRead` is an if-and-only-if.
* A null byte outside of a string ends the text, whatever follows (`NullEndsText`).

## Model

| member | source | states |
|---|---|---|
| JsonValue.EqTransitive | src/json.hpp:5882-5955 | `operator==` is transitive through nested arrays and objects and mixed signed and unsigned numbers |
| JsonValue.UnsignIsEqual | src/json.hpp:5882-5955 | reading a non-negative signed number back as an unsigned one gives an equal value, at any depth |
| Ordering.Trichotomy | src/json.hpp:6046-6122 | for all values, exactly one of a < b, a == b and b < a holds |
| Ordering.LessTransitive | src/json.hpp:6046-6122 | `<` is transitive, also through ==, where unsigned numbers fit in int64_t |
| Ordering.TransitiveIffUnsignedFits | src/json.hpp:6046-6122 | all unsigned numbers in a value, at any depth, fit in int64_t if and only if no two fitting values break transitivity around it; the same among values with ordered keys |
| Ordering.LargeUnsignedBreaksTransitivity | src/json.hpp:6109-6120 | 1 < 2^63 and 2^63 < 0, but not 1 < 0 |
| OrderLaws.TypesAreOrdered | src/json.hpp:171-193 | null < boolean < number < object < array < string, for all values, and false < true |
| OrderLaws.NumbersAreOrdered | src/json.hpp:6076-6120 | numbers are ordered as numbers, an unsigned one beside a signed one modulo 2^64 as int64_t |
| OrderLaws.StringsAreOrdered | src/json.hpp:6068-6071 | the first byte that two strings do not share decides, or the shorter one comes first |
| OrderLaws.ArraysAreOrdered | src/json.hpp:6056-6059 | a < b for arrays if and only if, at the first place where they are not equal, a ends or has the smaller element |
| OrderLaws.ObjectsAreOrdered | src/json.hpp:6060-6063 | the same for objects, entry by entry, each by its key and then by its value |
| JsonPointer.ReplaceSubstring | src/json.hpp:12102-12114 | the in-place loop replaces every occurrence, left to right, of any non-empty substring |
| JsonPointer.Escape | src/json.hpp:12117-12123 | two passes of replacement compute the escape function, whose bytes PointerGrammar.EscapeWritesChars fixes |
| JsonPointer.Unescape | src/json.hpp:12126-12132 | two passes of replacement, in the order of section 4 of RFC 6901, compute the unescape function |
| JsonPointer.UnescapeUndoesEscape | src/json.hpp:12117-12132 | for every string, unescaping the escape gives the string |
| JsonPointer.ToString | src/json.hpp:11693-11701 | the accumulation gives the pointer text of the tokens, which PointerGrammar.TextIsOneDerivation fixes byte by byte |
| JsonPointer.Split | src/json.hpp:12029-12087 | the loop that ends when npos + 1 wraps to 0 computes the split function, errors included |
| JsonPointer.SplitUndoesToString | src/json.hpp:11679-11701 | for all tokens, splitting the text of a pointer gives its tokens |
| JsonPointer.SplitAcceptsExactlyPointers | src/json.hpp:12029-12087 | split succeeds on exactly the texts that to_string makes, and returns tokens with that text |
| PointerGrammar.EscapeWritesChars | src/json.hpp:12117-12123 | escape writes the characters of section 3 of RFC 6901, in literal bytes, that denote the token |
| PointerGrammar.TextIsOneDerivation | src/json.hpp:11693-11701 | tokens have exactly one derivation by the grammar of JSON Pointers, and to_string writes it |
| PointerGrammar.SplitIsGrammar | src/json.hpp:12029-12087 | split returns tokens if and only if the grammar derives the text and denotes these tokens |
| PointerGrammar.OtherTextsAreRefused | src/json.hpp:12029-12087 | split throws std::domain_error on exactly the texts that the grammar does not derive |
| Decimal.StoiOfNumberText | src/json.hpp:11918 | std::stoi: white space, a sign and digits give the number if it is an int, whatever follows |
| Decimal.StoiRefuses | src/json.hpp:11918 | std::invalid_argument exactly where no digits stand behind white space and a sign |
| JsonAccess.CreatedIsLocated | src/json.hpp:11821-11935 | where get_checked finds a value, get_unchecked finds the same and creates nothing |
| JsonAccess.WithChildLaws | src/json.hpp:11821-11935 | writing through a reference is seen by reading it, and the last write wins |
| JsonPatch.ApplyUnder | src/json.hpp:12511-12602 | an operation with a prefixed pointer acts on the child and changes nothing else |
| JsonPatch.ApplyAllUnder | src/json.hpp:12511-12602 | the same for whole lists of operations |
| JsonPatchLaws.PatchOfDiff | src/json.hpp:12765-12895 | applying what diff generates gives a value == target, or an error exactly where an index is not addressable |
| JsonPatchDocument.Diff | src/json.hpp:12765-12895 | the passes, with reversed removals inserted at end_index and escaped keys, write the documents of those operations |
| JsonPatchDocument.CommonPass | src/json.hpp:12794-12802 | the common elements, compared one by one |
| JsonPatchDocument.RemovePass | src/json.hpp:12807-12819 | surplus elements are removed from the back |
| JsonPatchDocument.AddPass | src/json.hpp:12821-12831 | surplus elements are appended in order |
| JsonPatchDocument.KeyPass | src/json.hpp:12838-12859 | each key of the source is compared or removed |
| JsonPatchDocument.NewPass | src/json.hpp:12861-12875 | each key that only the target has is added |
| JsonPatchDocument.Patch | src/json.hpp:12472-12731 | the loop over a working copy applies the six operations in order and stops at the first error; PatchOperations says what each of them does |
| JsonPatchDocument.PatchUndoesDiff | src/json.hpp:12739-12743 | `source.patch(diff(source, target)) == target` if and only if the differences are addressable |
| JsonPatchDocument.ShortIsAddressable | src/json.hpp:12739-12743 | arrays of at most 2^31 elements are always addressable |
| JsonPatchDocument.LongArrayBreaksPatch | src/json.hpp:12739-12743 | one element more than that breaks the documented claim |
| JsonPatchDocument.AddAssertsIffParentPrimitive | src/json.hpp:12511-12572 | the assertion in operation_add fails if and only if the parent is found and is a boolean, a number or a string |
| JsonPatchDocument.AddBelowPrimitive | src/json.hpp:12565-12569 | adding /a/b to {"a": 1} is one such input |
| PatchOperations.AddLaw | src/json.hpp:12511-12572 | "add" succeeds with r if and only if r is the document with the value at the pointer: at "-" behind the last element, at an index with the rest moved on, at a key whether it existed or not, everything else unchanged |
| PatchOperations.RemoveLaw | src/json.hpp:12575-12602 | "remove" succeeds with r if and only if r lacks exactly that member or element |
| PatchOperations.ReplaceLaw | src/json.hpp:12664-12669 | "replace" changes the value at the pointer and nothing else |
| PatchOperations.MoveLaw | src/json.hpp:12671-12686 | "move" is the removal followed by the addition of what stood there |
| PatchOperations.CopyLaw | src/json.hpp:12688-12696 | "copy" assigns to the place that get_unchecked finds or creates |
| PatchOperations.TestLaw | src/json.hpp:12698-12721 | "test" leaves the document as it is if the value there is ==, and otherwise fails |
| PatchOperations.AddIsRefused | src/json.hpp:12511-12572 | the exact condition under which "add" is refused |
| PatchOperations.RemoveIsRefused | src/json.hpp:12575-12602 | the exact condition for "remove", and the error of an unresolved parent |
| PatchOperations.ReplaceIsRefused | src/json.hpp:12664-12669 | "replace" is refused if and only if nothing stands at the pointer, with the error of the first token that leads nowhere |
| PatchOperations.MalformedIsRefused | src/json.hpp:12613-12648 | an operation without the members it needs throws std::invalid_argument, and std::domain_error only for a bad pointer |
| PatchOperations.PatchInOrder | src/json.hpp:12610-12727 | a patch is its operations one after the other, up to the first error |
| PatchOperations.NothingIsMade | src/json.hpp:12511-12572 | where the parent exists, "add" creates nothing beside the value, as section 4.1 of RFC 6902 asks |
| PatchOperations.AddMakesParent | src/json.hpp:12521-12530 | adding /a/b/c to {"a": {}} creates the missing parent |
| PatchOperations.RemoveBelowPrimitive | src/json.hpp:12575-12602 | removing /a/b from {"a": 1} changes nothing and throws nothing |
| PatchOperations.LastTokenIsLoose | src/json.hpp:12550-12562 | adding at any token that std::stoi reads as i is adding at i, leading zeros and what follows the digits included |
| PatchOperations.LeadingZeroIsRead | src/json.hpp:12550 | "01" is such a token for 1 |
| PatchOperations.CopyIntoArray | src/json.hpp:12688-12696 | copying to an index of an array overwrites the element; it is the addition of section 4.5 of RFC 6902 if and only if the index is the length |
| JsonDiffLaws.DiffIsDifferences | src/json.hpp:12765-12895 | every operation of diff names a place where the documents differ: removed is what the target lacks, added what the source lacks, replaced what is not == and not compared further |
| JsonDiffLaws.NoDifferences | src/json.hpp:12765-12772 | diff is empty if and only if the values are == |
| JsonFlatten.Flatten | src/json.hpp:12141-12191 | the recursion that writes into the result |
| JsonFlatten.Unflatten | src/json.hpp:12199-12225 | the loop over the members of the flattened object, errors included |
| JsonFlatten.FlatIsLeaves | src/json.hpp:12388-12393 | the entries are exactly the leaves under their pointer texts, in key order |
| JsonFlattenLaws.ArrayStartsAtZero | src/json.hpp:11746-11800 | in the order of the flattened keys, element 0 of an array comes first |
| JsonFlattenLaws.ObjectStartsAtZero | src/json.hpp:11746-11800 | an object is met through its key "0" first exactly if that key is visited before all others |
| JsonFlattenLaws.SubOfFlat | src/json.hpp:12141-12191 | the entries below a token are the flattened child |
| JsonUnflattenLaws.AssembleObject | src/json.hpp:12199-12225 | rebuilding an object rebuilds each child from its own entries |
| JsonUnflattenLaws.AssembleArray | src/json.hpp:12199-12225 | rebuilding an array rebuilds each element from its own entries |
| JsonUnflattenLaws.UnflattenUndoesFlatten | src/json.hpp:12409-12411 | `j.flatten().unflatten()` is j with empty containers as null if and only if j is restorable |
| JsonUnflattenLaws.ZeroKeyBreaksUnflatten | src/json.hpp:11756-11764 | the object {"0": true} comes back as an array |
| UnflattenSemantics.UnflattenPlacesMembers | src/json.hpp:12199-12225 | for every object: unflatten succeeds if and only if all values are primitive, all keys are pointers and each value can be placed, and the result is what has been placed |
| BinaryFormat.AddToVector | src/json.hpp:6546-6589 | the lowest bytes of a signed or unsigned number, most significant first |
| BinaryFormat.UnsignedOfBigEndian | src/json.hpp:6546-6640 | reading the bytes of a number gives the number |
| BinaryFormat.BigEndianOfUnsigned | src/json.hpp:6546-6640 | and the bytes of the number that bytes denote are those bytes |
| BinaryFormat.SignedOfBigEndian | src/json.hpp:6546-6640 | the same in two's complement |
| BinaryFormat.CheckLengthIsExact | src/json.hpp:7175-7194 | for sizes that vectors have, check_length is the plain comparison although it computes in size_t |
| BinaryFormat.PlacesAreBigEndian | src/json.hpp:6546-6589 | the 1, 2, 4 or 8 bytes of a number, place by place |
| Cbor.ToCborInternal | src/json.hpp:6898-7150 | the encoder appends the encoding of the value and nothing else; CborFormat.EncodesShortestItem fixes its bytes |
| Cbor.AppendElements | src/json.hpp:7099-7103 | the loop over array elements |
| Cbor.AppendMembers | src/json.hpp:7137-7142 | the loop over object members |
| CborDecoder.FromCborInternal | src/json.hpp:7448-7916 | the decoder with its shared index computes the decoding function, value and final index or error; CborFormat.DecodesExactlyItems fixes what it reads |
| CborDecoder.ReadItems | src/json.hpp:7645-7726 | arrays of definite length |
| CborDecoder.ReadPairs | src/json.hpp:7740-7826 | maps of definite length; a repeated key overwrites |
| CborDecoder.ReadChunks | src/json.hpp:7631-7642 | chunked strings |
| CborDecoder.ReadItemsToBreak | src/json.hpp:7728-7738 | arrays up to the break byte |
| CborDecoder.ReadPairsToBreak | src/json.hpp:7828-7838 | maps up to the break byte |
| CborLaws.CborRoundTrip | src/json.hpp:6898-7150 | framed round trip: wherever an encoding stands, decoding gives an equal value and stops right behind it |
| CborLaws.NoEncodingExtendsAnother | src/json.hpp:6898-7150 | an encoding that begins with another one is the same encoding of an equal value |
| CborLaws.DecodedIsLocal | src/json.hpp:7448-7916 | a decoded value depends only on its own bytes, wherever they stand |
| CborLaws.CborIgnoresWhatFollows | src/json.hpp:7448-7916 | cutting the vector behind the value or appending bytes changes nothing |
| CborLaws.IndefiniteArray | src/json.hpp:7728-7738 | an array of indefinite length, 9f ... ff, decodes to the value of every array of definite length with the same items |
| CborLaws.IndefiniteMap | src/json.hpp:7828-7838 | the same for maps, bf ... ff, repeated keys included |
| CborLaws.IndefiniteText | src/json.hpp:7631-7642 | a chunked string, 7f ... ff, decodes to the string of all chunks |
| CborLaws.NegativeIsRead | src/json.hpp:7537-7560 | a negative number -1 - n is read as itself if and only if n < 2^63 |
| CborFormat.EncodesShortestItem | src/json.hpp:6898-7150 | the encoding is the data item of section 2.1 of RFC 7049 for the value, in literal bytes, with shortest arguments and definite lengths |
| CborFormat.ShortestIsShortest | src/json.hpp:6914-6975 | no argument of the same number takes fewer bytes |
| CborFormat.DecodesExactlyItems | src/json.hpp:7448-7916 | the decoder returns a value if and only if a data item with that meaning stands there, arguments of any width and indefinite lengths included |
| CborFormat.AcceptedInitialBytes | src/json.hpp:7448-7916 | the initial bytes from which some value is read: 00-1b, 20-3b, 60-7b, 7f, 80-9b, 9f, a0-bb, bf and f4-f6 |
| CborFormat.OtherBytesAreRefused | src/json.hpp:7911-7914 | every other one throws std::invalid_argument, except for floating-point numbers |
| CborTruncation.CutItem | src/json.hpp:7444 | a vector that ends anywhere within a data item throws std::out_of_range |
| MsgPack.ToMsgPackInternal | src/json.hpp:6652-6886 | the encoder appends the encoding of the value and nothing else |
| MsgPack.AddUnsigned | src/json.hpp:6672-6708 | the format for a non-negative number, as the source selects it |
| MsgPack.AddNegative | src/json.hpp:6709-6741 | the format for a negative number, as the source selects it |
| MsgPack.AddHead | src/json.hpp:6790-6871 | the headers of strings, arrays and maps; none beyond 32 bits |
| MsgPackDecoder.FromMsgPackInternal | src/json.hpp:7210-7432 | the decoder with its shared index computes the decoding function, value and final index or error |
| MsgPackLaws.MsgPackRoundTripIff | src/json.hpp:6652-6886 | framed round trip if and only if all sizes are below 2^32 |
| MsgPackLaws.LongStringComesBackAsZero | src/json.hpp:6790-6820 | a string of 2^32 null bytes is read back as the number 0 |
| MsgPackLaws.NoEncodingExtendsAnother | src/json.hpp:6652-6886 | an encoding that begins with another one is the same encoding of an equal value |
| MsgPackLaws.DecodedIsSmall | src/json.hpp:7210-7432 | every decoded string, array and object has a size below 2^32 |
| MsgPackLaws.DecodedIsLocal | src/json.hpp:7210-7432 | a decoded value depends only on its own bytes |
| MsgPackLaws.MsgPackIgnoresWhatFollows | src/json.hpp:7210-7432 | cutting the vector behind the value or appending bytes changes nothing |
| MsgPackFormat.EncodesShortestItem | src/json.hpp:6652-6886 | the encoding of a value with 32-bit sizes is its item of the format, in literal bytes |
| MsgPackFormat.NumberOfIsShortest | src/json.hpp:6672-6741 | no item that means the same number is shorter |
| MsgPackFormat.ShortestSizeIsShortest | src/json.hpp:6790-6871 | no head of the same size is shorter |
| MsgPackFormat.NoHeadBeyond32Bits | src/json.hpp:6790-6871 | a string, array or object of 2^32 or more is written without a head |
| MsgPackFormat.DecodesExactlyItems | src/json.hpp:7210-7432 | the decoder returns a value if and only if an item with that meaning stands there |
| MsgPackFormat.AcceptedFirstBytes | src/json.hpp:7210-7432 | the first bytes from which some value is read: all but c1, c4-cb and d4-d8 |
| MsgPackFormat.OtherBytesAreRefused | src/json.hpp:7426-7429 | these throw std::invalid_argument, except for floating-point numbers |
| MsgPackTruncation.CutItem | src/json.hpp:7206 | a vector that ends anywhere within an item throws std::out_of_range |
| Utf8.ToUnicodeIsUtf8 | src/json.hpp:9645-9707 | to_unicode with its masks and 0x35FDC00 gives the UTF-8 of section 3 of RFC 3629, for a surrogate pair that of its code point |
| Utf8.CodePointOfUtf8 | src/json.hpp:9675-9700 | every scalar value is written as a UTF8-char of section 4 of RFC 3629 that denotes it |
| Utf8.Utf8OfCodePoint | src/json.hpp:9675-9700 | and every UTF8-char is the one way to write its code point |
| JsonString.ExtraSpaceIsExact | src/json.hpp:8097-8128 | extra_space is exactly the growth, and 0 exactly if nothing is escaped |
| JsonString.EscapeString | src/json.hpp:8143-8248 | filling the buffer at a moving position stays in bounds, ends at its end and gives the escape |
| JsonString.UnescapedEscaped | src/json.hpp:8143-8248 | for every byte string, what escape_string writes is read back |
| StringGrammar.GetString | src/json.hpp:10975-11088 | the loop over a string token computes the unescaping function, errors for lone surrogates included; StringMeaning.TokenMeaning says what that is |
| StringGrammar.UnicodeEscape | src/json.hpp:11047-11082 | the case of \u escapes, with the look-ahead for a second one, computes a step of that function |
| StringGrammar.StringValue | src/json.hpp:10975-11088 | for every string of the grammar: an error if and only if an escaped surrogate is not half of a pair, and otherwise well-formed UTF-8 |
| StringGrammar.HighWithLow | src/json.hpp:11053-11068 | two escapes that form a pair mean the one code point of the pair |
| StringGrammar.EscapedIsString | src/json.hpp:8143-8248 | escaping well-formed UTF-8 gives a string of section 7 of RFC 7159 |
| StringMeaning.SpellingIsRead | src/json.hpp:10975-11088 | for all characters, two-character escapes and numbers up to 0xffff in four digits of any case, in literal bytes: get_string returns the UTF-8 of what they stand for, pairs of surrogates as one code point, or fails on a lone one |
| StringMeaning.TokenMeaning | src/json.hpp:10975-11088 | the same for a whole token between quotation marks |
| StringMeaning.StringIsQuoted | src/json.hpp:9965-9984 | the strings that scan accepts are exactly these spellings between quotation marks |
| StringMeaning.EscapeWritesPieces | src/json.hpp:8143-8248 | escape_string writes a two-character escape where there is one, four lower-case digits for other control characters, and every other byte as it is |
| Lexer.Lexer.Scan | src/json.hpp:9773-10819 | the jumps, marker and cursor compute the token function of the automaton from any position |
| Lexer.Lexer.FollowLabels | src/json.hpp:10193-10213 | and the marker, a null pointer at first, is set whenever label 32 goes back to it |
| LexerLaws.ScanString | src/json.hpp:9965-9984 | from a quote, scan returns a string token if and only if a string of section 7 of RFC 7159 in well-formed UTF-8 stands there, and exactly that string; otherwise the quote is an error |
| LexerLaws.CharStep | src/json.hpp:10128-10227 | the automaton passes over each character of a string, escaped or of one to four bytes |
| LexerLaws.Stuck | src/json.hpp:10193-10213 | where neither a character nor a quote comes, it returns to the marker with an error |
| NumberGrammar.ScannedIsNumber | src/json.hpp:9991-10073 | every number token of scan is a number of section 6 of RFC 7159, of the right type |
| NumberGrammar.NumberIsScanned | src/json.hpp:10414-10544 | every number of that grammar which no further byte continues is a token, with fraction and exponent or without |
| NumberGrammar.IntegerValue | src/json.hpp:11259-11296 | get_number gives the number of the digits if it fits into 64 bits |
| TokenGrammar.ScannedIsToken | src/json.hpp:9773-10819 | every token of scan stands behind blanks and is the mark, literal, string or number that the grammar asks for; the input ends at the end of the text or at a null byte |
| TokenGrammar.TokenIsScanned | src/json.hpp:9773-10819 | and every token of the grammar is scanned as such |
| LexerLaws.TokenMoves | src/json.hpp:9773-10819 | every token other than an error moves the cursor on, so that scanning ends |
| Numbers.NumToStr | src/json.hpp:8254-8304 | for every 64-bit integer, filling and reversing the buffer gives its decimal text |
| Numbers.Write | src/json.hpp:8273-8304 | the assertions hold: 63 digits are never reached, and the rest of the buffer stays zero |
| Numbers.GetNumberText | src/json.hpp:11259-11296 | get_number reads back what numtostr writes, with the right type |
| JsonGrammarLaws.DerivedIsParsed | src/json.hpp:11396-11589 | on derived tokens the parser returns the value of the derivation, the last of duplicate keys winning, or fails as it does |
| JsonGrammarLaws.ParserAcceptsGrammar | src/json.hpp:11379-11621 | the parser accepts a sequence of tokens if and only if the grammar of sections 2 to 5 of RFC 7159 derives it and its strings and numbers have values |
| JsonAcceptance.AcceptanceIgnoresNumbers | src/json.hpp:11569-11575 | whatever the numbers are, a sequence of tokens is accepted if and only if it is derived with strings that have values |
| JsonAcceptance.ZeroedIsAcceptedAlike | src/json.hpp:11569-11575 | reading numbers that have values as 0 does not change acceptance |
| JsonParser.ParseTextIsGrammar | src/json.hpp:11379-11394 | the same for the tokens of a text |
| TextGrammar.TextIsDerived | src/json.hpp:9773-10819 | the tokens of a byte string are derived by the grammar if and only if the bytes are a JSON text of RFC 7159: blanks, brackets, literals, strings and numbers byte by byte |
| TextGrammar.ParserAcceptsTexts | src/json.hpp:11379-11394 | parse accepts a byte string if and only if it is a JSON text whose strings and numbers have values, and returns the value of its derivation |
| TextGrammar.NullEndsText | src/json.hpp:9938-9943 | what stands behind a null byte does not matter |
| JsonParser.ScannedStringsAreUtf8 | src/json.hpp:10975-11088 | for every string token of scan, get_string throws or returns well-formed UTF-8 |
| JsonParser.Parser.ParseInternal | src/json.hpp:11396-11589 | pulling tokens from the lexer one by one computes the specification of the parser |
| JsonParser.Parser.ParseItemsLoop | src/json.hpp:11508-11536 | the loop over array elements and the closing bracket |
| JsonParser.Parser.ParsePairsLoop | src/json.hpp:11429-11479 | the loop over object members and the closing brace |
| JsonParser.ParseJson | src/json.hpp:11379-11394 | parse of a whole text |
| ParseErrors.ParseFailsWell | src/json.hpp:11379-11621 | on every byte string, parse returns a value or throws std::invalid_argument, unless a number is left out of the model |
| JsonDump.Dump | src/json.hpp:8415-8545 | what is written to the stream is the dump function, with the indentation in 32 bits; DumpLayout and DumpTokens fix its bytes |
| JsonDump.DumpArray | src/json.hpp:8467-8499 | a non-empty array: the loop with its changing indentation computes the dump function |
| JsonDump.DumpObject | src/json.hpp:8425-8464 | and so for a non-empty object |
| JsonDump.ToText | src/json.hpp:2647-2661 | the public dump: compact for a negative argument, and otherwise indented by it from column 0 on |
| DumpTokens.CompactIsTokens | src/json.hpp:8415-8545 | compact output is the texts of the tokens in a row, in literal bytes, and has no blank outside of strings |
| DumpLayout.IndentedIsSpread | src/json.hpp:8415-8545 | indented output is the compact text with a line break behind each opening bracket and comma and in front of each closing bracket, none in empty containers, (indentation + open brackets * step) mod 2^32 spaces on each line, and a space behind each colon |
| DumpTokens.SqueezedIsCompact | src/json.hpp:8415-8545 | deleting the blanks outside of strings from indented output gives the compact output |
| TextRoundTrip.DumpScans | src/json.hpp:8415-8545 | the text of a value is scanned into the tokens of its derivation, wherever it stands |
| TextRoundTrip.TreeMeans | src/json.hpp:11396-11589 | that derivation means the value |
| TextRoundTrip.ParseUndoesDump | src/json.hpp:8415-8545 | parse(dump(j)) == j for every value with well-formed UTF-8, every layout and every indentation |
| TextRejection.DumpIsParsedIffUtf8 | src/json.hpp:8415-8545 | parse(dump(j)) succeeds if and only if all strings and keys of j are well-formed UTF-8, and is then == j |
| TextRejection.LoneByteIsRefused | src/json.hpp:8143-8248 | the string of the one byte 0xff is one that is not parsed |
| HostAndPort.FromStringUndoesToString | utils/HostAndPort.hpp:22-36 | an address is read back from its text if and only if the host has no colon and either is shorter than 2^32 - 1 bytes with a port below 2^31, or has 2^32 - 1 bytes and begins with the port |
| HostAndPort.LargePortIsNotRead | utils/HostAndPort.hpp:28-36 | port 2^31 is out of range |
| HostAndPort.ColonInHostIsNotRead | utils/HostAndPort.hpp:28-36 | the host "::1" is not read back |
| HostAndPort.LongHostReadsItself | utils/HostAndPort.hpp:28-36 | a host of 2^32 - 1 bytes that begins with -5 is read back with port 2^32 - 5 |
| HostAndPort.FromStringCutsAtColon | utils/HostAndPort.hpp:28-36 | every text is cut at its first colon, and std::stoi reads the port from what follows, modulo 2^32; without a colon, from the text itself |
| Cluster.Cluster.constructor | src/Cluster.cpp:10-15 | 30 free slots |
| Cluster.Cluster.NodeInCluster | src/Cluster.cpp:48-58 | whether some slot holds the address |
| Cluster.Cluster.AddNode | src/Cluster.cpp:60-68 | the first free slot takes the address; a full table stays as it is |
| Cluster.Cluster.RemoveNode | src/Cluster.cpp:76-86 | the first slot with the address becomes free |
| Cluster.Cluster.GetNodeClient | src/Cluster.cpp:88-95 | throws exactly for addresses outside the table |
| Cluster.Cluster.GetNodesWithIdxInCluster | src/Cluster.cpp:97-108 | the occupied slots with their indices |
| Cluster.Cluster.GetNodesInCluster | src/Cluster.cpp:110-120 | their addresses |
| Cluster.Cluster.AddMembers | src/Cluster.cpp:35-45 | the loop over a reply; a malformed one leaves what has been written before the error |
| ClusterTable.TableRefinesMembers | src/Cluster.cpp:48-86 | over every run of registrations and evictions the table has no duplicates and stands for the members of the simple rule |
| ClusterTable.MembersStay | src/Cluster.cpp:60-86 | a member keeps its slot until it is evicted |
| ClusterTable.MembersHaveSlots | src/Cluster.cpp:60-86 | at most 30 members, each with one of the 30 slots of its own |
| ClusterTable.ListingIsMembers | src/Cluster.cpp:97-108 | the listing is exactly the members with their slots, in order |
| ImqNode.IMQNode.GetNodesInCluster | src/IMQNode.cpp:14-45 | reads the request, registers once and replies with the table; a request that cannot be read changes nothing |
| ImqNode.IMQNode.JoinCluster | src/IMQNode.cpp:61-65 | the leader registers the joiner, the joiner reads the reply |
| RpcMessages.RequestIsRead | src/Cluster.cpp:30-31 | the handler reads from a request the address that Bootstrap has written |
| RpcMessages.CalleeIsRead | src/rpc/RPCResponse.cpp:40-44 | the callbacks read the callee that AddResponseMetadata has written, and every other field stays |
| RpcMessages.CalleeFits | src/rpc/RPCResponse.cpp:40-44 | the metadata can be added if and only if the response and its "callee_info" are null, missing or objects |
| ReplyLaws.ReplyLaw | src/Cluster.cpp:35-45 | for every reply: it is read to its end if and only if it has no nodes, or an object of entries that can be read one after the other |
| ReplyLaws.EntryLaw | src/Cluster.cpp:37-44 | an entry is read if and only if its key is an index in the table and its value lists texts of addresses, and the last one then stands in that slot and nothing else has changed |
| ImqNode.ReplyIsRead | src/Cluster.cpp:35-45 | reading a reply takes over exactly the occupied slots of the replier |
| Membership.JoinCopiesTable | src/Cluster.cpp:23-46 | a fresh node that joins ends with the leader's table, slot for slot |
| Membership.JoinStep | src/Cluster.cpp:23-46 | after each join in a run, the tables of joiner and leader are the same |
| Membership.RunsFromNothing | src/IMQNode.cpp:14-65 | in every run that begins without nodes, all tables are good, and a join leaves joiner and leader with the same table |
| Membership.RunsKeepTablesGood | src/IMQNode.cpp:14-65 | in every run of constructions, registrations and joins, occupied slots are a prefix without duplicates |
| RpcWire.RequestArrives | src/rpc/RPCClient.cpp:28-45 | the dumped request is parsed if and only if the host of the joiner is UTF-8, and then as it was sent |
| RpcWire.ReplyArrives | src/rpc/RPCServerWorkerPool.cpp:88-97 | the dumped reply is parsed if and only if all hosts in the table are UTF-8, and then as it was sent |
| RpcWire.WireJoinIsStep | src/Cluster.cpp:23-46 | a join through dumped and parsed messages succeeds if and only if the hosts of the joiner and of the leader's table are UTF-8, and then has exactly the effect of the step: both tables are the leader's with the joiner registered |
| RpcWire.BadHostNeverJoins | src/rpc/RPCServerWorkerPool.cpp:75-83 | a joiner whose host is not UTF-8 cannot send its request |
| RpcText.RequestText | src/Cluster.cpp:30-31 | the bytes of a request: {"host":"...","port":...,"register_node":true} |
| RpcText.ReplyText | src/IMQNode.cpp:30-44 | the bytes of a reply: {"nodes":...} |
| RpcText.SlotText | src/IMQNode.cpp:37-42 | the bytes of a slot in it: "index":"host:port" |
| RpcText.CalleeIsNamed | src/health/Health.cpp:29-30 | the address that a callback reads stands under "callee_info", "host" and "port" |
| RpcText.FieldNames | src/rpc/RPCResponse.cpp:40-44 | the names of all fields, letter by letter |
| RpcText.RequestIsUnderstood | src/IMQNode.cpp:14-28 | which JSON values register whom, for all values |
| Health.Health.TimedoutNodeCallback | src/health/Health.cpp:39-62 | reads the callee from the response, and marks, counts or evicts it |
| Health.Health.HealthyNodeCallback | src/health/Health.cpp:27-37 | reads the callee from the response and clears its mark |
| Health.Health.CheckAllMembers | src/health/Health.cpp:76-85 | one round over the listed members, with registrations between its calls, has the effect of them in order, and GetNodeClient never throws |
| Health.RoundIsRun | src/health/Health.cpp:76-85 | such a round is a run of registrations, and of replies and timeouts of other members |
| Health.RetriesAreStreaks | src/health/Health.cpp:27-62 | in every run, marked nodes are members and a count is the timeouts in a row minus one, at most 3 |
| Health.EvictionAtTheFifthTimeout | src/health/Health.hpp:78-84 | a member is evicted exactly at its fifth timeout in a row, and by nothing else |
| Health.OwnSlotStays | src/health/Health.cpp:76-80 | a node never evicts itself and keeps its slot |

## Left out

- Floating-point numbers: parsing, printing, decoding and comparing them depends on IEEE 754 and on library functions; where
  the code would produce one, the model returns the error `Unmodelled`.
- Parser callbacks, discarded values, stream input and the refilling of the line buffer: the lexer reads a byte string
  followed by null bytes.
- JsonPatchDocument.Patch: pointers into the working copy are modelled as rebuilding the path to the place, so aliasing is
  not captured; where C++ leaves the order of evaluation open, the right side of the assignment in "copy" and the "value" of a
  "test" come first.
- JsonAccess.WithChildLaws: a reference is a slot of its parent; a negative array index, which converts to a huge
  `size_t`, is the error `LengthError`.
- JsonDump.Dump: the stream is a growing byte string, and the state and width of a real `std::ostream` are not captured.
- JsonGrammarLaws.ParserAcceptsGrammar: a sequence with a floating-point number or one beyond 64 bits has no value here and
  is not accepted; JsonAcceptance.AcceptanceIgnoresNumbers says what the parser accepts whatever the numbers are.
- Cluster.Cluster.AddMembers: an index outside the table, undefined behaviour in the source, is an error.
- ImqNode.IMQNode.JoinCluster: the remote call is the handler of another node object, run as one step on JSON values; its
  bytes are the subject of RpcWire, and sockets, identities and the loss of messages are not modelled.
- Health.Health.CheckAllMembers: each call ends with a reply, a timeout or no callback before the next one begins, because the
  temporary response object joins its thread; registrations come between calls, not within a callback.
- Membership.RunsKeepTablesGood: merging clusters and joining after evictions are not claimed; a node joins once, before it
  serves registrations.
- ZeroMQ sockets, the proxy, worker threads, clocks and mutexes, the RPC and client stores, queues and the metadata store.
- Iterators, conversions, allocation and move semantics of the JSON library.
