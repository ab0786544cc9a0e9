# Verified models of the sensor gateway, cJSON, the wpa_supplicant event loop and two linked lists

This project models, in Dafny, the parts of the repository whose correctness is hardest to see from the code, and proves
what they promise. It stands beside the C sources and shares nothing with them: each module names the files it models in
the table below.

- **cJSON 1.7.12.** The text side is a set of functions: values, their printed text in both layouts, and the parser as a
  function of text, cursor and depth (`JsonValues`, `JsonStrings`, `JsonLiterals`, `Unicode`), with the theorem that the
  two undo each other (`JsonRoundTrip`). `JsonGrammar` and `JsonAccepted` say in literal bytes which texts the parser
  accepts, `JsonLayout` what printed text looks like, and `JsonMinifyTokens` what minifying leaves. The code side works on
  linked nodes in a heap whose allocator may refuse any request (`JsonTree`): parsing (`JsonParser`), printing into
  growable or fixed buffers (`JsonPrinter`), duplicating, deleting, comparing, editing children (`JsonEdits`, and on whole
  trees `JsonEditTrees`), and minifying in place. Contracts speak of a whole tree through a ghost outline (`Shape`) and of
  ownership through the set of live blocks. UTF-8 is written on 32-bit words and specified on numbers (`Words`). `JsonLaw`
  puts the two sides together.
- **The wpa_supplicant event loop** (select variant). `EloopTimers` and `EloopRuns` are a state machine whose handlers
  make arbitrary calls into the interface; `EloopTimerEdits` and `EloopCalls` say what each call changes and who is called
  in a run; `EloopQueue` and `Eloop` are the ring of timeouts, the socket tables and the main loop as code, proved to be
  that machine.
- **Byte-string codecs** of `common.c`: `Codecs` has the functions and the round trips, `CodecEscapes` each escape by
  itself, and `CodecLoops` the loops over buffers.
- **The kernel's circular list** (`KernelList`): every operation is one edit of a sequence.
- **The sensor server**: merge sort and search (`OsGen`), the bounded list (`OsList`), the hand-off to two readers
  (`HandOff`) and the averaging window (`Averages`).

`dafny verify dfyconfig.toml` checks everything.

## What the proofs found

The code is modelled as it is. Where it does less than one may expect, a lemma gives the exact condition or an example:

- `parse_hex4` cannot tell malformed digits from `0000`; such an escape puts a NUL byte into the string
  (`JsonStrings.MalformedHexReadsAsNul`), which silently ends there while the whole literal is consumed
  (`JsonStrings.MalformedHexCutsString`, and `JsonStrings.MalformedLiteralCut` for an example).
- Because such an escape takes six characters whatever they are, an unpaired surrogate behind it can be passed over and the
  literal accepted (`JsonLiterals.ShiftedSurrogateAccepted`). Where all escapes have their digits, surrogates must be paired
  (`JsonLiterals.LiteralReads`).
- The parser takes every byte up to 32 for white space and leaves the form of numbers to `strtod`, so it accepts more than the
  grammar of RFC 8259 (`JsonAccepted.TextAccepted`); on the texts of the grammar itself `JsonGrammar.TextReads` is exact.
- An object with a repeated key and different values does not compare equal to its own copy
  (`JsonCompare.CompareReflexive`, `JsonCompare.DuplicateKeysDiffer`).
- `cJSON_Minify` takes the second backslash of an escaped backslash for an escape of the closing quote
  (`JsonMinifyLaw.MinifyUnformats` has the exact condition, `JsonMinifyLaw.TrailingBackslashKeepsSpace` an example).
- `cJSON_PrintPreallocated` needs one byte more than text and terminator, always (`JsonPrinter.PrintPreallocated`).
- `eloop_deplete_timeout` and `eloop_replenish_timeout` cancel before they register. With result 1 the timer is still there
  if and only if memory was not refused (`EloopTimers.AdjustedExactly`), and all other timers are if and only if none of
  them matches (`EloopTimers.AdjustSparesOthers`). `EloopTimers.BothTimersVanish` and `EloopTimers.LaterTimerVanishes` are
  examples.
- A handler may be called on the strength of a `select` that did not know of it: the dispatch of writers or exceptions takes
  down the flag that an earlier dispatch of the same turn put up. `EloopRuns.UpToTable` and `EloopRuns.ServesOnlyExactly`
  say when, `EloopRuns.NewWriterServed` is an example.
- `cJSON_PrintBuffered` with a prebuffer of 0 and without `realloc` copies one byte from a block of none. The contract of
  `JsonPrinter.PrintBuffered` says exactly when, `JsonPrinter.CopiesStayExactly` which arguments rule it out, and
  `JsonPrinter.NullStrays` and `JsonPrinter.PrintNullFromNothing` are examples.
- `_wpa_snprintf_hex` without data leaves the buffer unterminated except at its last place, and an even buffer that is too
  small ends in half a byte (`CodecLoops.SnprintfHex`).
- `list_cut_position` on a list without entries leaves the target list as it was, unlike `list_cut_before`
  (`KernelList.ListCutPosition`).
- Two equal messages in a row stop the hand-off for good (`HandOff.RepeatedStays`, `HandOff.EqualMessagesStay`; the exact
  condition is in `HandOff.DrainsExactlyWhenFresh`).

## Model

| member | source | states |
|---|---|---|
| JsonRoundTrip.PrintedTextParses | final-assignment/cJSON/cJSON.c:1010-1087 | Main law. For every value of literals, codec-lossless numbers, NUL-free strings, arrays and objects, in either layout, the printed text parses to that very value and to its end if the nesting is at most 1000, and is rejected if it is deeper |
| JsonRoundTrip.ValueReads | final-assignment/cJSON/cJSON.c:1222-1274 | The same at any position, indentation and depth counter: a printed value is read back exactly when its nesting fits into what the counter leaves |
| JsonRoundTrip.AcceptedIsShallow | final-assignment/cJSON/cJSON.c:1351-1376 | Whatever text is accepted, the value has no more levels than the nesting limit leaves |
| JsonGrammar.TextReads | final-assignment/cJSON/cJSON.c:1010-1087 | Every text of the RFC 8259 grammar, in literal bytes, with any white space it allows, a byte-order mark or none, and numbers of at most 63 bytes that the codec takes whole: it is accepted if and only if its escapes are legal and its nesting is at most 1000, with the value it denotes; what follows behind white space is ignored, or forbidden when the caller asks for the end of the text |
| JsonGrammar.SyntaxReads | final-assignment/cJSON/cJSON.c:1222-1274 | The same at any position and depth counter, in front of white space, a comma, a closing bracket or brace or the end; nothing past the value is consumed |
| JsonGrammar.NumberReads | final-assignment/cJSON/cJSON.c:276-350 | A number of the grammar (optional minus, digits, optional point and digits, optional e or E with sign and digits) of at most 63 bytes goes to the codec as a whole, wherever a value can stand |
| JsonGrammar.NumberTextReads | final-assignment/cJSON/cJSON.c:1010-1087 | The same for a number that is the whole text |
| JsonGrammar.LongestRunRead | final-assignment/cJSON/cJSON.c:289-320 | On any text the codec is given the longest run of digits, signs, points and letters e, at most 63 bytes |
| JsonAccepted.TextAccepted | final-assignment/cJSON/cJSON.c:1010-1087 | The converse: every accepted text is a byte-order mark or none, bytes up to 32, a value put together of brackets, braces, commas, colons, quoted strings, number runs and literal names with nothing but bytes up to 32 between them, and then anything, or nothing but bytes up to 32 when the end was asked for; the result is the value it denotes |
| JsonAccepted.ValueAccepted | final-assignment/cJSON/cJSON.c:1222-1274 | The same for a value at any position of a terminated text |
| JsonStrings.QuotedRoundTrip | final-assignment/cJSON/cJSON.c:837-956 | A printed string is read back byte for byte and the cursor lands just past its closing quote |
| JsonStrings.PrintedForms | final-assignment/cJSON/cJSON.c:909-951 | What is printed for each byte: a backslash and a letter for quote, backslash, \b, \f, \n, \r and \t, \u and four digits for the other control characters, and every other byte itself |
| JsonStrings.EscapedConcat | final-assignment/cJSON/cJSON.c:905-951 | And for a string that of its parts, one after the other |
| JsonLayout.PrintLaidOut | final-assignment/cJSON/cJSON.c:1445-1504 | A scan over the bytes of a print of any value, in either layout: strings hold no control character, every bracket and brace is closed by its own kind, and between any two bytes outside of strings stands exactly the white space of the layout |
| JsonLayout.NewlinesIndent | final-assignment/cJSON/cJSON.c:1645-1727 | Every newline outside of strings is followed by as many tabs as brackets and braces are open there, or by one fewer and a closing brace, and it occurs only in a formatted print |
| JsonLayout.SeparatorsFollowed | final-assignment/cJSON/cJSON.c:1475-1690 | A comma is followed by one space among elements and by a newline among members, a colon by one tab, an opening brace by a newline and an opening bracket by no white space; in an unformatted print none of them is followed by white space |
| JsonLayout.UnformattedIsTight | final-assignment/cJSON/cJSON.c:1097-1170 | An unformatted print has no white space and no control character outside of strings, and no control character in them |
| JsonStrings.SpelledStringIsUtf8 | final-assignment/cJSON/cJSON.c:587-705 | A string of \uXXXX escapes that spell nonzero Unicode scalar values in UTF-16 parses to the concatenation of their UTF-8 forms |
| Unicode.Utf8IsShortestForm | final-assignment/cJSON/cJSON.c:650-699 | That UTF-8 form matches the bit patterns of section 3 of RFC 3629, decodes to the code point, and no shorter pattern does |
| Unicode.Utf16RoundTrip | final-assignment/cJSON/cJSON.c:631-643 | Splitting a scalar value above U+FFFF into surrogates and combining them (section 2.2 of RFC 2781) gives it back |
| JsonLiterals.LiteralReads | final-assignment/cJSON/cJSON.c:708-834 | For every literal of plain characters, two-character escapes and \u escapes with four hex digits: it is accepted if and only if each letter is one of the eight and each surrogate has its partner right beside it, and its value is what the tokens stand for up to the first NUL |
| JsonLiterals.UnitsReadExactly | final-assignment/cJSON/cJSON.c:587-705 | For every sequence of 16-bit units written as \u escapes: the literal is accepted if and only if the units are well-formed UTF-16 (section 2.1 of RFC 2781), and its value is then the UTF-8 form of the text they spell up to the first NUL |
| JsonLiterals.UnpairedSurrogateRejected | final-assignment/cJSON/cJSON.c:606-639 | No literal whose escapes all have their digits is accepted with a surrogate that lacks its partner, whatever stands before or after it |
| JsonLiterals.MeaningExactly | final-assignment/cJSON/cJSON.c:755-812 | Tokens taken from the left stand for something exactly when each is legal where it is |
| JsonLiterals.ShortEscapes | final-assignment/cJSON/cJSON.c:771-811 | The eight two-character escapes and what each stands for; no other letter is legal |
| Unicode.HexDigitsExactly | final-assignment/cJSON/cJSON.c:550-583 | The hexadecimal digits 0-9, a-f and A-F with their values, and no others |
| Unicode.Hex4Reads | final-assignment/cJSON/cJSON.c:550-583 | Four digits, each of either case, are read as the number they write |
| JsonLiterals.ShiftedSurrogateAccepted | final-assignment/cJSON/cJSON.c:550-583 | The literal "\uZ\ud800" is accepted: the malformed escape takes six characters, so the surrogate is passed over |
| JsonStrings.MalformedHexReadsAsNul | final-assignment/cJSON/cJSON.c:550-583 | A \u escape puts a NUL byte into the string and is passed over if and only if it has room before the closing quote and is followed by 0000 or by four characters that are not all hex digits |
| JsonStrings.MalformedHexCutsString | final-assignment/cJSON/cJSON.c:755-826 | What a literal with such an escape is worth: it is accepted exactly when what follows the escape can be unescaped, all of it is consumed, and its value is what was written before the escape, so never longer than that |
| JsonStrings.MalformedLiteralCut | final-assignment/cJSON/cJSON.c:755-826 | The literal "a\uZZZZb" is accepted as a whole and worth a |
| JsonStrings.UnescapeFits | final-assignment/cJSON/cJSON.c:720-812 | The two passes agree on the room: on every input, malformed escapes included, the bytes written never exceed the length less the escapes that the first pass counted |
| Unicode.ParseHex4 | final-assignment/cJSON/cJSON.c:550-583 | The loop over four digits computes their value, or 0 at the first character that is none |
| Unicode.ReadLiteral | final-assignment/cJSON/cJSON.c:587-649 | Code point and length of one or two \uXXXX sequences, or length 0 for a lone or wrong surrogate or too short an input |
| Unicode.WriteUtf8 | final-assignment/cJSON/cJSON.c:650-699 | Computed with the masks and shifts of the C text on a 32-bit word, lead and continuation bytes, written from the last one backwards, are the UTF-8 form of the code point and nothing else is touched |
| Unicode.Utf16LiteralToUtf8 | final-assignment/cJSON/cJSON.c:587-705 | One literal is converted in place: exactly its UTF-8 form is written, or nothing |
| Words.LaterByteIs | final-assignment/cJSON/cJSON.c:682-687 | On every 32-bit word, setting 0x80 and masking with 0xBF gives 0x80 plus the last six bits: the byte the writing loop stores |
| Words.ShiftSixDivides | final-assignment/cJSON/cJSON.c:687 | Shifting a word right by six is division by 64 |
| Words.FirstByteIs | final-assignment/cJSON/cJSON.c:690-693 | Joining the mark of two, three or four bytes to what is left of the code point adds it |
| Words.MasksRemain | final-assignment/cJSON/cJSON.c:642-697 | The masks 0x3F, 0x7F (the one-byte case) and 0x3FF are remainders |
| Words.PairWord | final-assignment/cJSON/cJSON.c:642 | The two masked halves of a surrogate pair, shifted and joined, are the number of the pair less 0x10000 |
| JsonDelete.Delete | final-assignment/cJSON/cJSON.c:224-245 | A chain of trees gives back exactly the blocks it owns, each once, although a block can be given back only while it is live |
| JsonDelete.OwnedExactly | final-assignment/cJSON/cJSON.c:230-243 | What that is: the node, its key unless constant, and, unless it is a reference, its text and what its children own |
| JsonDuplicate.Duplicate | final-assignment/cJSON/cJSON.c:2564-2641 | On success a sound tree of fresh blocks, equal node by node (or the node alone without recursion), and the live blocks grow by exactly what it owns; on refusal no block is left over |
| JsonDuplicate.Strdup | final-assignment/cJSON/cJSON.c:159-178 | A fresh copy of a C string, NULL for NULL, or a refusal without effect |
| JsonDuplicate.SameTreeSameValue | final-assignment/cJSON/cJSON.c:2564-2641 | A duplicate stands for the same JSON value as its original |
| JsonDuplicate.DuplicateAndDelete | final-assignment/cJSON/cJSON.c:224-245 | Deleting a duplicate undoes the making of it: the live blocks are the same as before |
| JsonParser.ParseBuffer.SkipWhitespace | final-assignment/cJSON/cJSON.c:973-991 | Moves over every byte up to 32, the final NUL included, and steps back from the end of the text |
| JsonParser.FindClosingQuote | final-assignment/cJSON/cJSON.c:720-745 | The first pass finds the closing quote, if there is one, and counts the escapes in front of it |
| JsonParser.UnescapeInto | final-assignment/cJSON/cJSON.c:755-812 | The second pass writes the unescaped bytes and a terminator within the estimated block, or reports a bad escape |
| JsonParser.ParseString | final-assignment/cJSON/cJSON.c:708-834 | A string literal becomes a fresh block of the estimated size and the cursor lands past the quote that the first pass found; on failure node and live blocks are as before |
| JsonParser.ParseNumber | final-assignment/cJSON/cJSON.c:276-350 | The run of at most 63 number characters goes through the codec and the cursor moves by what the codec used |
| JsonParser.ParseArray | final-assignment/cJSON/cJSON.c:1351-1442 | Elements are parsed into linked siblings that show what the text says; depth is restored and failure leaves no block behind |
| JsonParser.ParseObject | final-assignment/cJSON/cJSON.c:1507-1613 | The same for members, with key and value in one node |
| JsonParser.ParseValue | final-assignment/cJSON/cJSON.c:1222-1274 | On every input and every pattern of refused allocations: success means the tree shows the value of the text function and the live blocks grew by exactly this tree, failure means malformed text or refused memory and no change of live blocks |
| JsonParser.ParseWithOpts | final-assignment/cJSON/cJSON.c:1010-1087 | The same for a whole text with byte-order mark, surrounding white space and the optional check for a terminated end |
| JsonPrinter.Ensure | final-assignment/cJSON/cJSON.c:383-468 | Room for the request and one more byte, with contents kept and growth to at most twice the need, or one of three reasons to stop |
| JsonPrinter.UpdateOffset | final-assignment/cJSON/cJSON.c:471-481 | The offset moves over the string written behind it |
| JsonPrinter.PrintStringPtr | final-assignment/cJSON/cJSON.c:837-956 | The quoted text of a C string: counting the escapes reserves enough for it, and no byte behind its terminator is written while the block stays the same |
| JsonPrinter.PrintArray | final-assignment/cJSON/cJSON.c:1445-1504 | Brackets, elements and separators give the array text of the layout at this depth |
| JsonPrinter.PrintObject | final-assignment/cJSON/cJSON.c:1616-1727 | Braces, tabs, keys, values and line ends give the object text of the layout at this depth |
| JsonPrinter.PrintValue | final-assignment/cJSON/cJSON.c:1277-1348 | Behind any earlier output the text of the value is printed exactly when every node can be printed and there is room for it and two bytes more; no byte behind its terminator is written while the block stays the same |
| JsonPrinter.PrintPreallocated | final-assignment/cJSON/cJSON.c:1202-1219 | Succeeds if and only if the tree can be printed and the buffer has at least text length + 2 bytes; the buffer then holds the text and its terminator, and every byte behind them is as it was |
| JsonPrinter.PrintBuffered | final-assignment/cJSON/cJSON.c:1172-1200 | The same text in a block whose capacity never exceeds the larger of the prebuffer and twice (text length + 2) below INT_MAX / 2, from any prebuffer; no block is left over on failure. A copy asks for more bytes than the block has if and only if the prebuffer is 0, there is no realloc, the value asks for room at all and within INT_MAX, and neither the prebuffer nor the block asked for first is refused |
| JsonPrinter.CopiesStayExactly | final-assignment/cJSON/cJSON.c:383-468 | Over all values, refusals and moments every copy stays inside its block if and only if the prebuffer is not 0 or realloc is there |
| JsonPrinter.NullStrays | final-assignment/cJSON/cJSON.c:383-468 | With a prebuffer of 0, no realloc and every request granted, printing null is such a case |
| JsonPrinter.PrintNullFromNothing | final-assignment/cJSON/cJSON.c:1172-1200 | The same by running the code on a null node |
| JsonPrinter.Print | final-assignment/cJSON/cJSON.c:1097-1170 | The same text in a block of exactly its size, with or without realloc; no block is left over on failure |
| JsonLaw.PrintAndParse | final-assignment/cJSON/cJSON.c:1097-1170 | End to end: printing a tree and parsing the text gives a separate tree with the same value if it nests at most 1000 levels and neither is the text longer than INT_MAX nor memory refused; a deeper value never gives a tree; the live blocks grow by that tree only |
| JsonCompare.CompareDecides | final-assignment/cJSON/cJSON.c:2840-2963 | Comparison holds if and only if both values are free of contradictory repeated keys and invalid nodes and stand for the same nested maps, whatever the order of members, case-sensitive or not |
| JsonCompare.CompareSymmetric | final-assignment/cJSON/cJSON.c:2840-2963 | Comparison is symmetric on all values |
| JsonCompare.CompareTransitive | final-assignment/cJSON/cJSON.c:2840-2963 | Comparison is transitive on all values |
| JsonCompare.CompareReflexive | final-assignment/cJSON/cJSON.c:2840-2963 | A value equals its copy if and only if members that share a key mean the same |
| JsonCompare.CompareDistinct | final-assignment/cJSON/cJSON.c:2840-2963 | With distinct (folded) keys comparison is equality of nested maps |
| JsonCompare.DuplicateKeysDiffer | final-assignment/cJSON/cJSON.c:2923-2956 | An object with one key twice and two different values does not even equal its copy |
| JsonCompare.SameKeyExactly | final-assignment/cJSON/cJSON.c:104-125 | Two keys are the same if and only if they are equal, or case is ignored and they differ only between A-Z and a-z |
| JsonCompareNodes.SameString | final-assignment/cJSON/cJSON.c:104-125 | The loop of strcmp, or of the lower-case comparison, decides equality of the (folded) strings |
| JsonCompareNodes.GetObjectItem | final-assignment/cJSON/cJSON.c:1782-1812 | The first member with the key, or NULL when there is none, for any parent, name and members: NULL finds nothing, and a member without a key ends a case-sensitive search and is passed over by the other |
| JsonCompareNodes.KeyPlaceIsPlace | final-assignment/cJSON/cJSON.c:1782-1812 | Among members that all have a key this is the lookup of the value |
| JsonCompareNodes.CompareNodes | final-assignment/cJSON/cJSON.c:2840-2963 | On any separate trees the recursive code computes the comparison of what is seen of them, where a string without text and an object with a keyless member equal nothing; the same node equals itself unless it is invalid; NULL equals nothing |
| JsonCompareNodes.CompleteSeen | final-assignment/cJSON/cJSON.c:2885-2957 | When all strings have text and all members keys, what is seen is the value of the tree |
| JsonEdits.GetArrayItem | final-assignment/cJSON/cJSON.c:1753-1770 | The i-th child, or NULL beyond the end |
| JsonEdits.AddItemToArray | final-assignment/cJSON/cJSON.c:1858-1885 | The item follows the last child and all links agree |
| JsonEdits.DetachItemViaPointer | final-assignment/cJSON/cJSON.c:2085-2113 | The i-th child is taken out of the sequence and left without links |
| JsonEdits.DetachItemFromArray | final-assignment/cJSON/cJSON.c:2115-2123 | The same by index; an index outside the list changes nothing |
| JsonEdits.InsertItemInArray | final-assignment/cJSON/cJSON.c:2155-2182 | The item stands at the index, or at the end when the index is beyond it; a negative index changes nothing |
| JsonEdits.ReplaceItemViaPointer | final-assignment/cJSON/cJSON.c:2184-2217 | The replacement takes the place of the i-th child, whose blocks are given back, each once |
| JsonEdits.DeleteItemFromArray | final-assignment/cJSON/cJSON.c:2125-2128 | One child fewer and exactly its blocks given back |
| JsonEdits.DetachAndInsert | final-assignment/cJSON/cJSON.c:2155-2182 | Detaching a child and inserting it at the same index restores every link |
| JsonEditTrees.InsertTree | final-assignment/cJSON/cJSON.c:2155-2182 | On whole trees: the subtree stands at its place, every link and ownership invariant still holds, the tree owns what both owned, and the list of values, for an object of keys with their values, is edited in that one place |
| JsonEditTrees.DetachTree | final-assignment/cJSON/cJSON.c:2115-2123 | On whole trees: what remains and what was detached are two sound trees that share nothing and together own what the one owned; keys and values of the others stay |
| JsonEditTrees.ReplaceTree | final-assignment/cJSON/cJSON.c:2184-2227 | On whole trees: the new subtree stands in the place of the old one, whose blocks and no others are given back; every invariant holds and keys and values of the others stay |
| JsonEditTrees.ObjectLists | final-assignment/cJSON/cJSON.c:1753-1770 | The value of an object node lists keys and values of its children in order |
| JsonEditTrees.ArrayLists | final-assignment/cJSON/cJSON.c:1753-1770 | The value of an array node lists the values of its children in order |
| JsonMinify.Minify | final-assignment/cJSON/cJSON.c:2692-2738 | In place, with the write position never past the read position: the string left in the block is the minified text and nothing behind the old text is touched |
| JsonMinify.SkipOneline | final-assignment/cJSON/cJSON.c:2643-2654 | The read position after a one-line comment |
| JsonMinify.SkipMultiline | final-assignment/cJSON/cJSON.c:2656-2668 | The read position after a block comment |
| JsonMinify.MinifyString | final-assignment/cJSON/cJSON.c:2670-2690 | A string is copied up to the quote that no backslash stands before |
| JsonMinify.MinifyIdempotent | final-assignment/cJSON/cJSON.c:2692-2738 | Minifying twice is minifying once, on every text |
| JsonMinifyTokens.TokensMinified | final-assignment/cJSON/cJSON.c:2692-2738 | Of a text of white space, closed comments of both styles, closed strings and other bytes the strings and other bytes stay, in order and byte for byte, and all else vanishes |
| JsonMinifyTokens.GapChangesNothing | final-assignment/cJSON/cJSON.c:2692-2738 | White space and comments put between any two tokens change nothing |
| JsonMinifyTokens.MinifiedIsBare | final-assignment/cJSON/cJSON.c:2692-2738 | Outside of strings the minified form of any text holds none of the bytes 9, 10, 13 and 32 and no slash, so no comment |
| JsonMinifyLaw.MinifyUnformats | final-assignment/cJSON/cJSON.c:2670-2738 | On a formatted print minifying gives the unformatted print if and only if no key and no string ends in a backslash, a last string followed by closing brackets alone excepted |
| JsonMinifyLaw.MinifyUnformatsWithoutBackslash | final-assignment/cJSON/cJSON.c:2692-2738 | In particular when no key or string holds a backslash |
| JsonMinifyLaw.TrailingBackslashKeepsSpace | final-assignment/cJSON/cJSON.c:2670-2690 | A key that is one backslash shows the failure |
| EloopTimers.Sub | 01-general-knowledge/wpa_ctrl/inc/os.h:77-86 | One borrow normalises the difference of two normalised times |
| EloopTimers.BeforeMicros | 01-general-knowledge/wpa_ctrl/inc/os.h:69-74 | On normalised times the comparison is that of the microseconds |
| EloopQueue.DlListAdd | 01-general-knowledge/wpa_ctrl/inc/list.h:28-39 | An item goes into the ring at its place and next and prev stay inverse |
| EloopQueue.DlListDel | 01-general-knowledge/wpa_ctrl/inc/list.h:41-47 | An item leaves the ring and has no links |
| EloopQueue.Timeouts.Register | 01-general-knowledge/wpa_ctrl/src/eloop.c:762-810 | The new timer stands behind all that are due no later, or the call returns -1 without a change |
| EloopTimerEdits.RegisterPlaces | 01-general-knowledge/wpa_ctrl/src/eloop.c:762-810 | In literal terms: one timer with this handler and these contexts, due so many microseconds after the clock was read, stands behind every timer due no later and before all others |
| EloopQueue.Timeouts.Cancel | 01-general-knowledge/wpa_ctrl/src/eloop.c:822-841 | Safe iteration removes exactly the matching timers, wildcards included, keeps the order of the others and counts the removed ones |
| EloopTimerEdits.CancelLeaves | 01-general-knowledge/wpa_ctrl/src/eloop.c:822-841 | In literal terms: exactly the timers with another handler, or with another context where that is not -1, stay, in order |
| EloopQueue.Timeouts.CancelOne | 01-general-knowledge/wpa_ctrl/src/eloop.c:844-868 | The earliest exact match goes and the time it had left is reported |
| EloopTimerEdits.CancelOneTakesFirst | 01-general-knowledge/wpa_ctrl/src/eloop.c:844-868 | In literal terms: the first timer with just this handler and these contexts is taken out, or none |
| EloopQueue.Timeouts.IsRegistered | 01-general-knowledge/wpa_ctrl/src/eloop.c:871-884 | Whether some pending timer has exactly this handler and these contexts |
| EloopQueue.Timeouts.Adjust | 01-general-knowledge/wpa_ctrl/src/eloop.c:887-948 | The two functions that deplete and replenish, as cancel and register with result -1, 0 or 1 |
| EloopQueue.Timeouts.Expire | 01-general-knowledge/wpa_ctrl/src/eloop.c:1180-1194 | The first timer is taken out exactly when the clock is not before its deadline |
| EloopQueue.Timeouts.WaitTime | 01-general-knowledge/wpa_ctrl/src/eloop.c:1101-1110 | How long select may wait: the time left until the first deadline, or zero, or no limit |
| EloopTimers.AdjustMovesEarliest | 01-general-knowledge/wpa_ctrl/src/eloop.c:887-948 | With a clock that stands still during the call, a normalised request, no wildcard and memory at hand, the earliest matching deadline becomes the minimum (maximum) of its old value and now + request, the other timers keep their places and the result tells whether anything changed |
| EloopTimers.FirstIsEarliest | 01-general-knowledge/wpa_ctrl/src/eloop.c:894-898 | The match the two functions look at has the earliest deadline of all matches |
| EloopTimers.AdjustedExactly | 01-general-knowledge/wpa_ctrl/src/eloop.c:904-910 | When the result is 1, a timer with exactly these contexts is pending afterwards if and only if memory for it was not refused, and it is the new one and the only one |
| EloopTimers.AdjustSparesOthers | 01-general-knowledge/wpa_ctrl/src/eloop.c:904-910 | When the result is 1, every timer but the one looked at is still pending if and only if no other timer matches |
| EloopTimers.AdjustLosesTimer | 01-general-knowledge/wpa_ctrl/src/eloop.c:904-910 | When memory is refused the call still returns 1 although every matching timer is gone |
| EloopTimers.LaterTimerVanishes | 01-general-knowledge/wpa_ctrl/src/eloop.c:887-917 | Two timers with the same contexts, due after 10 and 20 seconds: shortening to 5 leaves the new timer alone |
| EloopTimers.BothTimersVanish | 01-general-knowledge/wpa_ctrl/src/eloop.c:887-917 | The same with the allocation refused leaves no timer, and the result is 1 |
| EloopTimers.InsertOrdered | 01-general-knowledge/wpa_ctrl/src/eloop.c:798-807 | Insertion keeps the queue ordered by deadline and first-in-first-out among equal deadlines |
| EloopTimers.RegisterKeeps | 01-general-knowledge/wpa_ctrl/src/eloop.c:762-810 | Registration keeps order, normalised deadlines, the balance of registered, pending and ended timers, and the order of firing |
| EloopTimers.CancelKeeps | 01-general-knowledge/wpa_ctrl/src/eloop.c:822-841 | Cancellation keeps the same |
| EloopTimers.CancelOneKeeps | 01-general-knowledge/wpa_ctrl/src/eloop.c:844-868 | Cancelling one keeps the same |
| EloopTimers.AdjustKeeps | 01-general-knowledge/wpa_ctrl/src/eloop.c:887-948 | Depletion and replenishment keep the same |
| EloopTimers.ExpireKeeps | 01-general-knowledge/wpa_ctrl/src/eloop.c:1180-1194 | Expiry keeps the same |
| EloopRuns.EveryRunKeepsTime | 01-general-knowledge/wpa_ctrl/src/eloop.c:1056-1240 | Over every run with a monotone clock, whatever handlers do: the queue stays ordered and normalised; each registered timer is pending or has fired or been cancelled, exactly once; timers fire in the order of deadline and registration, none early and none while an earlier one is pending |
| EloopRuns.EveryRunKeepsTables | 01-general-knowledge/wpa_ctrl/src/eloop.c:253-422 | Over every run: the socket count is the sum of the three tables, and the maximum bounds every registered socket |
| EloopRuns.TurnServesWatched | 01-general-knowledge/wpa_ctrl/src/eloop.c:1083-1228 | Every handler a turn calls is for a socket that select was given and reported ready; its entry was in the table that select was given, always among readers, and among writers and exceptions unless an earlier dispatch of the same turn had changed that table |
| EloopRuns.UpToTable | 01-general-knowledge/wpa_ctrl/src/eloop.c:1216-1228 | Before its own dispatch a table is the one select was given or its flag is up; the flag of the readers is not |
| EloopRuns.ServesOnlyExactly | 01-general-knowledge/wpa_ctrl/src/eloop.c:584-602 | A dispatch serves only entries that select was given, whatever its handlers do, if and only if no ready entry of the table it starts with is new |
| EloopRuns.EveryRunServesWatched | 01-general-knowledge/wpa_ctrl/src/eloop.c:1083-1228 | The same for every turn of every run, whatever handlers do |
| EloopRuns.NewWriterServed | 01-general-knowledge/wpa_ctrl/src/eloop.c:584-602 | A reader that replaces the writer of a socket: the dispatch of writers takes the flag down and calls the new entry |
| EloopRuns.DispatchServesPrefix | 01-general-knowledge/wpa_ctrl/src/eloop.c:584-602 | Whatever handlers do, a dispatch serves a prefix of the ready entries in the order of registration, and all of them unless a handler changed this table |
| EloopRuns.DispatchServesAll | 01-general-knowledge/wpa_ctrl/src/eloop.c:584-602 | If no handler touches the table, each ready entry is served once in the order of registration |
| EloopCalls.TurnServesAll | 01-general-knowledge/wpa_ctrl/src/eloop.c:1083-1228 | When handlers leave the tables alone, a turn with hits calls each reader, then each writer, then each exception handler whose socket was reported, once each in the order of registration; a turn without hits calls none |
| EloopCalls.TurnCallsFired | 01-general-knowledge/wpa_ctrl/src/eloop.c:1083-1228 | Every turn whose select does not fail: handlers called are the signal handlers due, plus the timers that fired, plus the traced socket calls; and the timeout handlers called are those of the timers that fired, in order and with their contexts |
| EloopCalls.EveryRunCallsFired | 01-general-knowledge/wpa_ctrl/src/eloop.c:1083-1228 | The same over every run, whatever handlers do: the timeout handlers called so far are those of the fired timers, and every call was for a signal, a timer or a socket |
| EloopCalls.TurnCallsDueTimer | 01-general-knowledge/wpa_ctrl/src/eloop.c:1180-1194 | Without signals a turn calls the handler of the first timer, with its contexts, exactly when the clock is not before its deadline, and no other timer |
| EloopCalls.RunsUntilRest | 01-general-knowledge/wpa_ctrl/src/eloop.c:1083-1085 | A run makes all its turns unless it is asked to end, select fails, or neither timers nor sockets are left, and then it stays as it is |
| EloopCalls.UnregisterRemovesFirst | 01-general-knowledge/wpa_ctrl/src/eloop.c:378-422 | On entry sequences: the first entry for the socket goes; the entries of all other sockets are the same in the same order; those of this socket are the old ones without the first; the other two tables and everything else are as before |
| EloopCalls.RegisterAppends | 01-general-knowledge/wpa_ctrl/src/eloop.c:253-375 | The entry goes to the end of its table and nothing else changes but count, maximum and flag; on refused memory nothing changes |
| EloopCalls.RegisterThenUnregister | 01-general-knowledge/wpa_ctrl/src/eloop.c:253-422 | Registering an entry for a new socket and taking it out again restores the entries of all tables and the count |
| Eloop.SetFds | 01-general-knowledge/wpa_ctrl/src/eloop.c:567-581 | The set of sockets of a table |
| Eloop.EventLoop.RegisterSock | 01-general-knowledge/wpa_ctrl/src/eloop.c:253-375 | The entry is appended, count, maximum and flag follow, or the call returns -1 without a change |
| Eloop.EventLoop.UnregisterSock | 01-general-knowledge/wpa_ctrl/src/eloop.c:378-422 | The first entry for the socket is taken out, or nothing happens |
| Eloop.EventLoop.Dispatch | 01-general-knowledge/wpa_ctrl/src/eloop.c:584-602 | The loop that re-reads the table after every handler and stops when its flag is up is the dispatch of the state machine |
| Eloop.EventLoop.Turn | 01-general-knowledge/wpa_ctrl/src/eloop.c:1083-1228 | One turn of the main loop is one step of the state machine |
| Eloop.EventLoop.Run | 01-general-knowledge/wpa_ctrl/src/eloop.c:1083-1228 | The first n turns, for every n, are n steps of the state machine |
| Codecs.ParseEscaped | 01-general-knowledge/wpa_ctrl/src/common.c:645-667 | For every byte string d the configuration string P"..." around its escaped form parses to d |
| Codecs.ParseHex | 01-general-knowledge/wpa_ctrl/src/common.c:668-684 | For every byte string d its hex text, in lower or upper case, parses to d |
| Codecs.ParsePlain | 01-general-knowledge/wpa_ctrl/src/common.c:633-644 | Between plain quotes every string stands for itself, quotes in it included |
| Codecs.DecodedEncoded | 01-general-knowledge/wpa_ctrl/src/common.c:515-594 | Decoding an escaped text with space for n bytes gives the first n bytes of the original |
| CodecEscapes.OctalByteDecodes | 01-general-knowledge/wpa_ctrl/src/common.c:566-580 | A backslash and the three octal digits of any byte decode to that byte, whatever follows |
| CodecEscapes.OctalDecodes | 01-general-knowledge/wpa_ctrl/src/common.c:566-580 | Any three octal digits decode to their value cut to eight bits |
| CodecEscapes.ShortOctalDecodes | 01-general-knowledge/wpa_ctrl/src/common.c:566-580 | One or two octal digits decode to their value when no octal digit follows |
| CodecEscapes.HexDecodes | 01-general-knowledge/wpa_ctrl/src/common.c:550-565 | Two hex digits behind \x decode to their byte, one to its value when no hex digit follows, and none to nothing |
| CodecEscapes.LettersDecode | 01-general-knowledge/wpa_ctrl/src/common.c:525-590 | The letters n, r, t and e, the quote and the backslash; any other backslash is dropped; any other byte stands for itself |
| CodecEscapes.ParseOctal | 01-general-knowledge/wpa_ctrl/src/common.c:645-667 | For every byte string the configuration string P"..." with each byte in octal parses to it |
| CodecEscapes.OctalLetter | 01-general-knowledge/wpa_ctrl/src/common.c:645-667 | P"\101" is the letter A |
| CodecEscapes.RefusedExactly | 01-general-knowledge/wpa_ctrl/src/common.c:631-685 | A configuration string is refused if and only if its quotes are not closed by its last character or, without quotes, it is not pairs of hex digits |
| CodecEscapes.WrittenForms | 01-general-knowledge/wpa_ctrl/src/common.c:466-512 | What printf_encode writes for each byte: printable bytes but quote and backslash as they are, and the escape of every other |
| CodecEscapes.EncodedConcat | 01-general-knowledge/wpa_ctrl/src/common.c:466-512 | And for a string what it writes for its parts, one after the other |
| CodecEscapes.HexForms | 01-general-knowledge/wpa_ctrl/src/common.c:306-325 | The two hex digits of a byte, small or capital as asked |
| Codecs.FittingFits | 01-general-knowledge/wpa_ctrl/src/common.c:466-512 | The escaped text always fits the buffer and stops early only where four more characters might not |
| Codecs.EnoughRoom | 01-general-knowledge/wpa_ctrl/src/common.c:611-622 | Four characters a byte and one more hold the whole escaped text |
| Codecs.BoundedDecodes | 01-general-knowledge/wpa_ctrl/src/common.c:466-512 | With any buffer size from 1 on the escaped text decodes to a prefix of the data |
| Codecs.HexTextReads | 01-general-knowledge/wpa_ctrl/src/common.c:170-185 | Hex digits of either case convert back to the bytes |
| CodecEscapes.HexExactly | 01-general-knowledge/wpa_ctrl/src/common.c:170-185 | Text of even length converts if and only if all of it is hex digits, of either case in any mixture, and each pair is the byte it writes |
| CodecLoops.PrintfEncode | 01-general-knowledge/wpa_ctrl/src/common.c:466-512 | The loop writes the escaped form of as many bytes as fit, terminated, and nothing behind the buffer size |
| CodecLoops.PrintfDecode | 01-general-knowledge/wpa_ctrl/src/common.c:515-594 | The loop writes the decoded bytes, octal and one-digit hex escapes included, within the buffer, and terminates them when there is room |
| CodecLoops.SnprintfHex | 01-general-knowledge/wpa_ctrl/src/common.c:306-325 | Whole bytes are counted and written; an even buffer that is too small ends in half a byte, and without data only the last place of the buffer is written |
| CodecLoops.HexFittingExactly | 01-general-knowledge/wpa_ctrl/src/common.c:306-325 | How many bytes that are: all, or the most whose digits and the terminator have room |
| CodecLoops.HexStr2Bin | 01-general-knowledge/wpa_ctrl/src/common.c:170-185 | Returns 0 exactly when the text is long enough and all digits are hex digits, and then the buffer holds their bytes; -1 otherwise, also on a shorter text |
| CodecLoops.ConfigParseString | 01-general-knowledge/wpa_ctrl/src/common.c:631-685 | A fresh terminated block with the parsed bytes, or NULL for a malformed string or refused memory, with no block left over |
| KernelList.Rotate | final-assignment/test/list.h:114-145 | Any node of a ring can be taken as its head |
| KernelList.ListAddBetween | final-assignment/test/list.h:182-193 | Insertion between two neighbours |
| KernelList.ListDel | final-assignment/test/list.h:250-269 | Removal, and the entry left without links |
| KernelList.ListReplace | final-assignment/test/list.h:278-285 | The new node takes the place of the old one, head or entry, also in a ring of one |
| KernelList.ReplaceEntry | final-assignment/test/list.h:278-285 | The same for the entry at a place |
| KernelList.ListSwap | final-assignment/test/list.h:306-316 | Two entries change places, in one ring (neighbours in either order included) or across two rings |
| KernelList.ListMoveTail | final-assignment/test/list.h:344-349 | An entry goes to the end of its own list or of another one |
| KernelList.ListBulkMoveTail | final-assignment/test/list.h:360-372 | A section goes to the end and nothing is lost or shared |
| KernelList.ListRotateToFront | final-assignment/test/list.h:463-472 | The ring is rotated so that the entry comes first |
| KernelList.ListCutPosition | final-assignment/test/list.h:483-519 | The front part up to the entry moves to the other list; a list without entries leaves the other one untouched |
| KernelList.ListCutBefore | final-assignment/test/list.h:537-551 | The part in front of the entry moves to the other list |
| KernelList.Splice | final-assignment/test/list.h:553-565 | The entries of one ring go into another between two neighbours |
| KernelList.ListSplice | final-assignment/test/list.h:572-577 | Joined in front; the emptied head keeps stale links |
| KernelList.ListSpliceTailInit | final-assignment/test/list.h:615-622 | Joined at the end; the emptied head becomes a ring of its own |
| KernelList.CutAndSplice | final-assignment/test/list.h:509-577 | Cutting a list in two and splicing the front part back restores every link |
| OsGen.Merge | final-assignment/shared/os_gen.c:3-29 | Both runs are merged into their place and nothing else is touched |
| OsGen.Sort | final-assignment/shared/os_gen.c:31-40 | The range is replaced by its merge sort and nothing else is touched; it terminates |
| OsGen.SortedSorts | final-assignment/shared/os_gen.c:31-40 | That merge sort is ascending and a permutation |
| OsGen.Search | final-assignment/shared/os_gen.c:42-60 | On an ascending range, 1 exactly when the value occurs; it terminates |
| OsGen.SortAndSearch | final-assignment/shared/os_gen.c:31-60 | After sorting, the search tells whether the value was in the original range |
| OsList.List.Push | final-assignment/shared/os_list.c:185-215 | The message goes to the end, or the list is full or memory refused and nothing changes |
| OsList.List.GetDataFirstNode | final-assignment/shared/os_list.c:93-109 | The message in front |
| OsList.List.RemoveFirstNode | final-assignment/shared/os_list.c:123-151 | The message in front leaves and the links agree |
| OsList.List.CleanNodes | final-assignment/shared/os_list.c:43-76 | The list is empty afterwards |
| HandOff.EachTakenOnceInOrder | final-assignment/main-server.c:224-245 | Over all interleavings of pushes and reader sections each reader has taken a prefix of the accepted messages, in push order and each once, and a message leaves the bounded list only after both have taken it; when the list is empty both have taken all |
| HandOff.TurnTakes | final-assignment/main-server.c:315-336 | A reader takes the message in front exactly when it has not done so and the message differs from the one accepted before |
| HandOff.DrainsExactlyWhenFresh | final-assignment/main-server.c:224-245 | The list can become empty if and only if no queued message repeats the one accepted before it (the first: is not empty), on runs of the readers alone and on runs with further pushes alike |
| HandOff.RepeatedStays | final-assignment/main-server.c:224-245 | A repeated message keeps the list filled over every run, pushes included |
| HandOff.EqualMessagesStay | final-assignment/main-server.c:224-245 | After two equal messages in a row the list is never empty again |
| HandOff.FinishSection | final-assignment/main-server.c:228-244 | The code under the shared mutex behind reading the first message is the step of the state machine, whatever the list holds by then |
| HandOff.CriticalSection | final-assignment/main-server.c:226-245 | The whole section when nothing is pushed meanwhile |
| Averages.SlotsSumLatest | final-assignment/main-server.c:255-267 | From the fifth reading on the five slots hold the five latest readings, wherever the round begins |
| Averages.Avg | final-assignment/shared/os_gen.c:63-72 | The mean of the slots 1 to 5 |
| Averages.Window.Record | final-assignment/main-server.c:253-268 | The slot index stays within 1 to 5, and the average is the mean of the five latest readings from the fifth on and missing before |
| Averages.RecordAll | final-assignment/main-server.c:253-268 | The same for every stream of readings from sensors 1 to 5, sensor by sensor |

## Left out

- JsonPrinter.Move: a copy that asks for more bytes than the old block has is recorded and takes those that are there; what C does then is undefined.
- JsonDelete.Delete: what a reference node refers to stays outside the outline, since it belongs to another tree.
- JsonParser.ParseNumber: conversion between doubles and text is the C library's; a codec stands for it, and numbers are reals, so NaN, infinities and the `valueint` copy are not modelled.
- JsonGrammar.TextReads: numbers longer than 63 bytes, which the parser cuts, and numbers that the codec does not take whole; `JsonGrammar.LongestRunRead` covers them. The decimal point of the locale, put in for the point, is part of the codec.
- JsonRoundTrip.PrintedTextParses: raw nodes are printed verbatim and are not part of the round trip.
- JsonParser.ParseWithOpts: the global error position and the NULL text are not modelled; the caller's text is a value.
- JsonCompareNodes.CompareNodes: two different nodes head separate trees; numbers compare as reals.
- JsonEditTrees.ReplaceTree: what stays, constant keys included, must not lie in the blocks that are given back.
- Unicode.ReadLiteral: the four-digit numbers are put into words only where they are combined or written.
- JsonEdits.InsertItemInArray: a NULL item, which the code dereferences unless it goes to the end, is excluded by its type.
- EloopQueue.Timeouts.Register: seconds are unbounded, so the wrap-around check of `time.sec` has no counterpart; the clock always answers.
- Eloop.EventLoop.Run: the first n turns, since the loop need not end; `eloop.terminate` is not reset afterwards, and the branch on `pending_terminate` with its alarm is not modelled.
- HandOff.EachTakenOnceInOrder: each node keeps its text by hypothesis; `connection_mgr` pushes one reused buffer by pointer, and that buffer, the network and full lists dropping messages are outside the model. Fairness of the threads is not claimed.
- OsGen.Search: integers are unbounded, so the sum of two large indices does not overflow.
- Averages.Window.Record: arithmetic is over reals; averages of at most 0, which the server does not report, are still returned here.
- Integer width: `size_t` sums of the printer are unbounded up to the tests against INT_MAX; byte values are integers below 256.
- Signal delivery: signal handlers are calls that the world makes at one point of a turn.
- The poll, epoll and kqueue branches and the tracing code of eloop.c; `fd_set` is a set.
- Freed memory of list and timeout nodes: leaving the ring is modelled, `free` itself only for cJSON and the configuration strings.
- hlist functions and memory-ordering macros of the kernel list.
- cJSON constructors, type predicates, Add...ToObject wrappers and hooks initialisation: they would only add easy members.
- SQLite wrapper, pipes, logging, sockets, room configuration and the tutorial programs: they are calls into the system.
