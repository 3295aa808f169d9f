# Verified models of the repository's algorithmic cores

This project models, in Dafny, the parts of the repository that compute something hard without input or output, and
proves what they promise. To verify all files together, use `dafny verify dfyconfig.toml`.

## The parts

**The red-black tree** (`Rb*.dfy`) is the intrusive tree of `rbtree.c` on a real heap of linked nodes. The macros that
pack parent and colour into one word are modelled as two fields, `parent` and `red`. `Root.tree` is the abstract value
of the linked structure: for every node its links, its colour, its place `pos` in the in-order sequence `order`, the
range of places below it, and how many black nodes are below it. With these coordinates the invariant `Valid` is one
local fact per node; `RbFacts` shows that it is the usual one (in-order traversal by the links gives `order`, black
root, no red child of a red node, equal black counts on all ways down, logarithmic height). Rotations, insertion with
its repair, removal with its splice and its repair, the walks and the repair of cached aggregates are the source's
statements on the links. `RbRuns` puts them together to whole runs. The mirrored halves of the source are both there;
what is proved about them is stated once, with the side as a parameter.

**The cJSON printer** (`Json.dfy`, `JsonPrint.dfy`) writes through a buffer whose `offset` lags behind the text until it
is measured again. `Text` is the plain recursive text of a value; `JsonLayout.dfy` says byte by byte what that is. Every
printing method succeeds exactly if the value is printable and its text and two bytes more fit what the buffer may
become, and then leaves that text.

**The cJSON parser** (`JsonUtf8.dfy`, `JsonSyntax.dfy`, `JsonDecode.dfy`, `JsonParse.dfy`) is the recursive descent over
an offset and a depth. `ParseValue` and its companions say, as functions on the text, what it accepts and where it
stops; the methods do it with a cursor and with a string buffer of the size that a first pass has counted.
`JsonGrammar.dfy` is the language that the parser is meant to read, as a concrete syntax with every byte written out and
without a word about the parser: strings and their escapes, numbers, blanks, arrays, objects, whole texts, and the
values they stand for. `JsonLiteral.dfy` and `JsonAccepts.dfy` show that all of it is read (up to 1000 levels of
nesting), `JsonSound.dfy` that nothing else is, and `JsonDocument.dfy` puts both together for whole texts.
`JsonRoundTrip.dfy` follows: what is printed is a text of the grammar. `JsonPlaces.dfy` holds what is used of texts and
the places in them. `JsonItems.dfy` and `JsonDuplicate.dfy` compare and copy linked items.

**Rings**: `Pcm.dfy` is the memory-mapped ring of a sound device while the device plays, `FrameRing.dfy` the ring in
shared memory with its free-running 32-bit counters, `MsgQueue.dfy` the queue with two semaphores as the interleaved
steps of a producer and a consumer. They share `Ring.dfy` (what stands in a ring from a position on) and `Modulo.dfy`.
Contracts that speak of places in a ring use `Rest(a, l)` and `Same(a, b, l)`, which count rounds instead of dividing;
they are `a % l` and `a % l == b % l` by `Modulo.RestIsMod` and `Modulo.SameIsMod`.

**The rest**: `Cycle.dfy` finds the entry of the loop of a linked list, `Minify.dfy` strips JSON text in place, and
`CallMachine.dfy` is the call state machine with what its actions leave to be exited.

## Reading the models

- Numbers: what `%1.15g`, `%1.17g` and `strtod` do is not modelled. A number is the text it prints to, and `strtod` is a
  parameter that says how many characters it takes and which text the result prints to. A token takes part in the round
  trip if it has the form of a number of RFC 8259, section 6, and at most 25 bytes, and if `strtod` takes all of it and
  gives it back; what NaN and the infinities print to, `null`, does not. What the parser reads as a number is what
  `strtod` takes of at most 63 number characters behind a minus or a digit, whether or not it has that form.
- The grammar follows the source where that is more lenient than RFC 8259: every byte up to 32 is a blank, control
  characters may stand in strings, and number characters that `strtod` leaves may follow a value at the end of the text.
- Without `realloc` a growing buffer of size 0 is not modelled, because the source copies a byte out of the empty buffer
  there; hence the condition on the starting size of `PrintBuffered`.
- `cJSON_PrintPreallocated` needs two bytes more than the text, not five as `cJSON.h:160` advises.
- A `\u` escape with bad digits is not rejected by the source: it decodes to U+0000 and takes six bytes, whatever they
  are. The decoder's bound is proved with that behaviour.
- The sound ring: positions and sizes are `int`s, `applPtr` may be equal to the boundary (line 834 compares with `>`),
  and `pcm_mmap_playback_avail` is then wrong in exactly the cases its contract names. When a full ring lies across the
  wrap it gives the boundary instead of 0, and `pcm_mmap_begin`, which cuts that down to the size of the ring only,
  grants frames that are still to be played. It is the case exactly if `hwPtr + bufferSize == applPtr + boundary`
  (`FullAcross`) once the device has moved on, and never if that is not so before the call. Every ring can get there
  (`FullAcrossHappens`). Transfers of frames that fit what is free do not, and need a boundary above the ring's size,
  which `ComputeBoundary` gives exactly if three rings fit an `int`. The field `queued` belongs to the device, and so do
  `hwPtr` and the steps of `Sync`, which may play any number of frames that are there.
- The frame ring's counters wrap at 2^32, which is harmless exactly for sizes that divide 2^32 (`WrapKeepsPlace`); for
  other sizes the methods ask for fewer frames since the last reset. A write takes no more frames than the ring has.
- `GetFirstNodeInCircle` declares `pNode1` and `pNode2` twice in the source, which no compiler takes; one declaration is
  modelled.
- In `cJSON_Minify` the text `/*/` is a comment that is closed, because the test for its end starts at the star.
- What an action of the call machine exits is what the message it prints names (actions 6, 7, 9, 10 and 11); actions 1
  to 5 are those that are named. The reset comes when 16 unexpected messages have been counted in a row and one more
  comes, and is the one step after which the open actions need not be those of the state (`ResetLeavesOpen`).

## Model

| member | source | states |
|---|---|---|
| `RbTree.RotateLeft` | Common/Compement/src/MemManager/rbtree.c:27-48 | On a well-formed tree the statements of the left rotation give exactly the rotated tree, with root, parent links and coordinates right and the in-order sequence unchanged. |
| `RbTree.RotateRight` | Common/Compement/src/MemManager/rbtree.c:50-71 | The same for the mirrored statements. |
| `RbTree.RotatedShape` | Common/Compement/src/MemManager/rbtree.c:27-71 | A rotation to either side keeps the tree well formed: links mirror each other and every subtree is still its stretch of the in-order sequence. |
| `RbColour.TurnedAllBlack` | Common/Compement/src/MemManager/rbtree.c:154-156 | Exchanging the colours of a red child and its parent and rotating keeps every black count, around a missing black node as well. |
| `RbInsert.PushedInserting` | Common/Compement/src/MemManager/rbtree.c:83-94 | Recolouring under a red uncle hands the one possible violation on to the grandparent and leaves no other. |
| `RbInsert.OuterTurned` | Common/Compement/src/MemManager/rbtree.c:106-108 | Under a black uncle, turning the parent over the grandparent ends the repair with a red-black tree. |
| `RbLink.Link` | Common/Compement/src/MemManager/rbtree.c:73-77 | Hanging a red leaf at an empty place of a red-black tree gives what `rb_insert_color` starts from, the leaf at its place in the in-order sequence. |
| `RbInsert.InsertColor` | Common/Compement/src/MemManager/rbtree.c:73-137 | Ends with a red-black tree of the same in-order sequence and nodes; apart from the way to the new node only siblings of that way have new children or places. |
| `RbEraseColor.EraseColor` | Common/Compement/src/MemManager/rbtree.c:139-217 | From a tree that lacks one black node at a known place, the loop ends with a red-black tree of the same nodes in the same order, and touches only the way up from that place and its siblings. |
| `RbErase.Splice` | Common/Compement/src/MemManager/rbtree.c:226-262 | The successor takes the links, the colour and the place of a node with two children, the parent-is-the-successor case included. |
| `RbErase.SpliceUnlinks` | Common/Compement/src/MemManager/rbtree.c:226-285 | After the splice the tree is red-black if a red node left its place, and otherwise lacks one black node exactly where the repair is told to start. |
| `RbErase.DropUnlinks` | Common/Compement/src/MemManager/rbtree.c:221-285 | The same when a node with at most one child is unlinked. |
| `RbErase.Erase` | Common/Compement/src/MemManager/rbtree.c:219-286 | Removing any node of a red-black tree leaves a red-black tree whose in-order sequence is the old one without that node; only the way from the deepest node and its siblings are touched. |
| `RbFacts.InorderIsOrder` | Common/Compement/src/MemManager/rbtree.c:359-433 | The abstract order is what an in-order traversal of the real links visits. |
| `RbFacts.ValidIsRedBlack` | Common/Compement/src/MemManager/rbtree.c:73-217 | The invariant means: black root, no red child of a red node, and equally many black nodes on any two ways down the real links. |
| `RbFacts.HeightBound` | Common/Compement/src/MemManager/rbtree.c:73-286 | The height of a red-black tree of n nodes is at most 2 * log2(n + 1). |
| `RbRuns.Run` | Common/Compement/src/MemManager/rbtree.c:73-286 | Any sequence of insertions and removals at places of the sequence leaves a red-black tree that holds what the same operations make of a plain sequence, and that is at most 2 * log2(n + 1) high. |
| `RbRuns.RunAugmented` | Common/Compement/src/MemManager/rbtree.c:73-354 | Any run that repairs the aggregates around each insertion and removal keeps the tree red-black and all aggregates right. |
| `RbRuns.InsertAt` | Common/Compement/src/MemManager/rbtree.c:73-137 | A leaf can be hung and repaired so as to come to any index of the in-order sequence. |
| `RbAugment.Recompute` | Common/Compement/src/MemManager/rbtree.c:293-300 | Recomputing one node makes it right and can make only its parent wrong. |
| `RbAugment.AugmentPath` | Common/Compement/src/MemManager/rbtree.c:288-305 | If all nodes off the way up and its siblings are right, then afterwards all nodes are. |
| `RbAugment.InsertLeaves` | Common/Compement/src/MemManager/rbtree.c:73-137 | After an insertion the only aggregates that may be wrong are at the new node, above it, and at siblings and children of that way. |
| `RbAugment.AugmentInsert` | Common/Compement/src/MemManager/rbtree.c:311-319 | Starting from a child of the inserted node makes all aggregates right again after what an insertion leaves. |
| `RbAugment.InsertAugmented` | Common/Compement/src/MemManager/rbtree.c:307-319 | Linking, rebalancing and repairing a tree of right aggregates gives a red-black tree of right aggregates with the leaf in its place. |
| `RbAugment.AugmentEraseBegin` | Common/Compement/src/MemManager/rbtree.c:325-344 | Finds the lowest node of the rebalancing way that stays in the tree, in all five cases. |
| `RbAugment.EraseLeaves` | Common/Compement/src/MemManager/rbtree.c:321-344 | After a removal all aggregates off the way up from that node and its siblings are right. |
| `RbAugment.NothingLeft` | Common/Compement/src/MemManager/rbtree.c:325-344 | There is no such node only if the removed one was the only one. |
| `RbAugment.AugmentEraseEnd` | Common/Compement/src/MemManager/rbtree.c:350-354 | Repairs from that node on; with none there is nothing to repair. |
| `RbAugment.EraseAugmented` | Common/Compement/src/MemManager/rbtree.c:219-354 | Removing a node from a tree of right aggregates between the two calls gives a red-black tree of right aggregates without that node. |
| `RbWalk.First` | Common/Compement/src/MemManager/rbtree.c:359-369 | The first node of the in-order sequence, null for an empty tree. |
| `RbWalk.Last` | Common/Compement/src/MemManager/rbtree.c:371-381 | The last node of the in-order sequence, null for an empty tree. |
| `RbWalk.Next` | Common/Compement/src/MemManager/rbtree.c:383-409 | The node after a node in the in-order sequence, null at the end and for a node that is its own parent. |
| `RbWalk.Prev` | Common/Compement/src/MemManager/rbtree.c:411-433 | The node before a node in the in-order sequence, null at the start and for a node that is its own parent. |
| `RbWalk.Walk` | Common/Compement/src/MemManager/rbtree.c:359-409 | From the first node by next, the whole in-order sequence is visited, each node once, and the walk ends. |
| `RbWalk.NextThenPrev` | Common/Compement/src/MemManager/rbtree.c:383-433 | Going on and back again leads to the same node exactly for all nodes but the last. |
| `RbReplace.ReplaceNode` | Common/Compement/src/MemManager/rbtree.c:435-457 | The newcomer gets the links, the colour and the place of the victim, and the tree stays red-black. |
| `JsonPrint.PrintBuffer.Ensure` | json/cjson_sample/cJSON.c:383-468 | Room is granted exactly if it and one byte more fit what the buffer may become; the text so far survives a regrowth. |
| `JsonPrint.PrintBuffer.UpdateOffset` | json/cjson_sample/cJSON.c:471-481 | A lagging offset is moved to the end of the text that has been written. |
| `JsonPrint.PrintBuffer.PrintNumber` | json/cjson_sample/cJSON.c:484-547 | Writes the number's text exactly if it has at most 25 characters and there is room for it and two bytes more. |
| `JsonPrint.PrintBuffer.CountEscapes` | json/cjson_sample/cJSON.c:856-880 | The first pass counts exactly what escaping adds to the length. |
| `JsonPrint.NothingEscaped` | json/cjson_sample/cJSON.c:891-900 | A string to which escaping adds nothing may be copied as it is. |
| `JsonPrint.PrintBuffer.PrintStringPtr` | json/cjson_sample/cJSON.c:837-956 | Writes the quoted and escaped string exactly if it and two bytes more fit; a NULL string prints like an empty one. |
| `JsonPrint.PrintBuffer.PrintValue` | json/cjson_sample/cJSON.c:1277-1348 | Succeeds exactly if the value is printable and its text and two bytes more fit, and then has appended precisely that text. |
| `JsonPrint.PrintBuffer.PrintArray` | json/cjson_sample/cJSON.c:1445-1504 | The same for arrays: the sum of all requests along the way is met exactly if the whole text and two bytes fit. |
| `JsonPrint.PrintBuffer.PrintObject` | json/cjson_sample/cJSON.c:1616-1727 | The same for objects, with keys, colons, tabs, line breaks and the comma that overwrites a terminator. |
| `JsonPrint.Print` | json/cjson_sample/cJSON.c:1097-1159 | Printing with a buffer that starts at 256 bytes gives exactly the text and a terminator, with and without `realloc`, for all printable values that fit an `int`. |
| `JsonPrint.PrintBuffered` | json/cjson_sample/cJSON.c:1172-1200 | The same for every starting size, but for size 0 without `realloc`; a negative size fails. |
| `JsonPrint.PrintPreallocated` | json/cjson_sample/cJSON.c:1202-1219 | Succeeds if and only if the buffer is there, the value is printable and `len` is at least the length of the text plus 2. |
| `JsonLayout.EscapeTable` | json/cjson_sample/cJSON.c:902-949 | With bytes written out: which bytes get an escape of one letter and which one, that the other bytes below 32 get `\u00` and two lower-case digits, and that every other byte stands for itself. |
| `JsonLayout.TextIs` | json/cjson_sample/cJSON.c:1277-1727 | The printed text is byte by byte the layout: in arrays a comma, and a space if formatted; in objects, if formatted, a line for every member with as many tabs as it is deep, and a tab behind the colon. |
| `JsonLayout.PrintableIs` | json/cjson_sample/cJSON.c:484-547 | A value prints exactly if nothing anywhere in it is of an unknown type, NULL raw text or a number of more than 25 characters. |
| `JsonLayout.RawText` | json/cjson_sample/cJSON.c:1310-1328 | Raw text prints as it is. |
| `JsonUtf8.ParseHex4` | json/cjson_sample/cJSON.c:550-583 | The number four hexadecimal digits spell, 0 if one is none. |
| `JsonUtf8.Utf16ToUtf8` | json/cjson_sample/cJSON.c:587-705 | Writes the UTF-8 of a `\u` escape or a surrogate pair and says how much of the literal that takes; fails on lone surrogates and missing digits at the end. |
| `JsonUtf8.Utf8Table` | json/cjson_sample/cJSON.c:650-697 | The encoding is the table of section 3 of RFC 3629, byte by byte. |
| `JsonUtf8.Utf8IsCodePoint` | json/cjson_sample/cJSON.c:650-697 | Decoding the encoding of a code point gives it back. |
| `JsonUtf8.CodePointIsUtf8` | json/cjson_sample/cJSON.c:650-697 | Only the encoding of a code point decodes to it. |
| `JsonLiteral.UnicodeDecodes` | json/cjson_sample/cJSON.c:587-705 | Four digits of either case that spell a code point outside of the surrogates are decoded, in six bytes, to the bytes that decode to that code point. |
| `JsonLiteral.PairDecodes` | json/cjson_sample/cJSON.c:612-648 | The escapes of 0xD800 + (cp - 0x10000) / 0x400 and 0xDC00 + (cp - 0x10000) % 0x400 are decoded, in twelve bytes, to the bytes that decode to cp. |
| `JsonLiteral.GarbledDecodes` | json/cjson_sample/cJSON.c:550-583 | Four bytes one of which is no digit are decoded, in six bytes, to the byte 0. |
| `JsonLayout.LetterTable` | json/cjson_sample/cJSON.c:768-808 | The letters of the escapes of one letter, the slash included, and what each stands for. |
| `JsonLiteral.DecodedPart` | json/cjson_sample/cJSON.c:755-809 | Whatever is decoded at one go is one of the parts of the grammar, and is decoded to what that stands for. |
| `JsonLiteral.FindEndIs` | json/cjson_sample/cJSON.c:721-744 | The quote that closes a literal is the one in front of which all bytes can be taken singly or, behind a backslash, in pairs. |
| `JsonLiteral.LiteralReads` | json/cjson_sample/cJSON.c:708-834 | Every literal of the grammar is read, to the meaning of its parts. |
| `JsonLiteral.ReadLiteral` | json/cjson_sample/cJSON.c:708-834 | Whatever is read as a literal is one of the grammar. |
| `JsonDecode.AllocatedIs` | json/cjson_sample/cJSON.c:721-748 | The buffer has the size of the literal between its quotes, less one for every backslash that takes a byte along, and two more. |
| `JsonDecode.Measure` | json/cjson_sample/cJSON.c:721-744 | The first pass finds the closing quote exactly if there is one, and counts the escapes as it splits them. |
| `JsonDecode.UnitBudget` | json/cjson_sample/cJSON.c:755-809 | Whatever the second pass takes in one go, even with escapes split differently from the first pass, it leaves at least as much of the literal unwritten as the first pass has counted escapes up to there. |
| `JsonDecode.DecodeFits` | json/cjson_sample/cJSON.c:721-812 | The decoded bytes and their terminator always fit the buffer of the size that the first pass computed. |
| `JsonDecode.DecodeLiteral` | json/cjson_sample/cJSON.c:754-812 | The in-place decoder never leaves that buffer, and its result is what the literal stands for. |
| `JsonParse.ParseBuffer.SkipWhitespace` | json/cjson_sample/cJSON.c:973-991 | Stops at the first byte above 32, at the latest at the terminator. |
| `JsonParse.ParseBuffer.SkipBom` | json/cjson_sample/cJSON.c:994-1007 | Skips a byte order mark exactly if there is one and more than a terminator follows it. |
| `JsonParse.ParseBuffer.ReadLiteral` | json/cjson_sample/cJSON.c:708-834 | Accepts exactly the literals of the specification, leaves their decoded bytes terminated in a buffer of their own, and stops behind the closing quote. |
| `JsonParse.ParseBuffer.ReadNumber` | json/cjson_sample/cJSON.c:276-350 | Hands at most 63 number characters to the conversion and moves on by what that takes; fails if it takes none. |
| `JsonParse.ParseBuffer.ReadValue` | json/cjson_sample/cJSON.c:1222-1274 | The cursor accepts what the specification accepts, gives the same value, stops at the same place, and restores the depth. |
| `JsonParse.ParseBuffer.ReadArray` | json/cjson_sample/cJSON.c:1351-1442 | The same for arrays, the nesting limit included. |
| `JsonParse.ParseBuffer.ReadObject` | json/cjson_sample/cJSON.c:1507-1613 | The same for objects, whose keys are C strings. |
| `JsonParse.ParseWithOpts` | json/cjson_sample/cJSON.c:1010-1087 | Parses a whole text behind a byte order mark and blanks, rejects what follows if told to, and reports the end of the value; an error is reported within the text. |
| `JsonAccepts.NumberFormReads` | json/cjson_sample/cJSON.c:276-350 | A number in the form of RFC 8259 (minus, digits, fraction, exponent), of at most 63 bytes, that the conversion takes whole is read whole, whatever byte that is none of a number follows. |
| `JsonAccepts.ValueReads` | json/cjson_sample/cJSON.c:1222-1613 | Every value of the grammar is read, to what it stands for and up to its end, if it and what it stands in nest no more than 1000 levels; otherwise reading fails. |
| `JsonSound.ValueFound` | json/cjson_sample/cJSON.c:1222-1613 | Whatever is read as a value is a value of the grammar, stands for what was read, ends where reading stops, and nests no more than 1000 levels. |
| `JsonDocument.ParsesExactly` | json/cjson_sample/cJSON.c:1010-1087 | A text parses to a value if and only if the grammar derives the text and it stands for that value; with nothing but blanks behind it if that is asked for. |
| `JsonRoundTrip.RoundTrip` | json/cjson_sample/cJSON.c:708-1727 | Parsing the printed text of any readable value, formatted or not, gives the value back and stops at the end of the text if nothing is nested deeper than 1000, and fails if something is. |
| `JsonItems.GetObjectItem` | json/cjson_sample/cJSON.c:1782-1812 | Finds the first member with a name, walking from the head of the list; a member without a name ends the search, and a missing object or name finds nothing. |
| `JsonItems.FindFirst` | json/cjson_sample/cJSON.c:1782-1812 | A name finds the first member that has it and none comes before it, even if several have it; it finds nothing exactly if none has it or one without a key comes first. |
| `JsonItems.Compare` | json/cjson_sample/cJSON.c:2840-2963 | On linked items, with the case of names respected, answers what comparing the trees they hold answers, NULL and the same item twice included. |
| `JsonItems.EqualMeans` | json/cjson_sample/cJSON.c:2840-2963 | For trees with names of their own in every object, comparing is true exactly if they mean the same, objects read as maps and arrays as sequences. |
| `JsonItems.SameTree` | json/cjson_sample/cJSON.c:2847-2887 | An item determines the tree below it, which justifies answering at once when both are the same item. |
| `JsonDuplicate.Duplicate` | json/cjson_sample/cJSON.c:2564-2641 | The copy is made of new items only, no item twice, linked forwards and backwards, and holds what the original holds, or its top alone. |
| `JsonDuplicate.CopyEqual` | json/cjson_sample/cJSON.c:2564-2641 | A recursive copy compares equal to its original, in both orders. |
| `Cycle.HasCircle` | algorithms_datastructures/algorithms_datastructures.c:247-259 | Ends on every list of finitely many nodes, and answers true exactly if following the list never comes to an end. |
| `Cycle.GetFirstNodeInCircle` | algorithms_datastructures/algorithms_datastructures.c:337-397 | Null exactly if the list ends; otherwise the first node from the head that lies on the loop. |
| `Cycle.HasShape` | algorithms_datastructures/algorithms_datastructures.c:247-259 | Every list within finitely many nodes is a row of different nodes that ends or returns to one of them. |
| `Cycle.RunnersMeet` | algorithms_datastructures/algorithms_datastructures.c:337-353 | The two runners are at the same node after k steps exactly if k is on the loop and a multiple of its length. |
| `Minify.Minify` | pcb_test/cJSON/cJSON.c:954-978 | In place, a text whose literals and block comments are closed becomes its tokens without blanks and comments, literals byte for byte, and a terminator; bytes behind the text stay. |
| `Minify.KeptIsFiltered` | pcb_test/cJSON/cJSON.c:954-978 | What is kept is said byte by byte: in literals everything; outside of them all but 32, 9, 13, 10, what follows `//` in its line, and what is between `/*` and `*/`. |
| `Minify.FilteredBlankless` | pcb_test/cJSON/cJSON.c:957-962 | Outside of its literals the result holds no 32, 9, 13 or 10. |
| `Minify.OneReading` | pcb_test/cJSON/cJSON.c:954-978 | Every text is a row of such tokens in exactly one way, or in none if a literal or a comment is not closed. |
| `Minify.Step` | pcb_test/cJSON/cJSON.c:957-976 | One round takes one token: the write cursor does not pass the read cursor, and what is written and what is still to come make up the result. |
| `Pcm.ComputeBoundary` | pcb_test/tinyalsa/pcm.c:729-732 | The boundary is the ring's size times a power of two, cannot be doubled once more, and leaves room for a ring below INT_MAX exactly if two rings fit an `int`. |
| `Pcm.Device.constructor` | pcb_test/tinyalsa/pcm.c:729-732 | The computed boundary makes a sound ring of every size of which three fit an `int`. |
| `Pcm.PlaybackAvail` | pcb_test/tinyalsa/pcm.c:797-809 | No overflow; congruent to hw + size - appl modulo the boundary; and the free space exactly if the ring is not full across the wrap, apart from one corner with a boundary of one ring. |
| `Pcm.FullAcrossShows` | pcb_test/tinyalsa/pcm.c:797-809 | The condition on which it is wrong can be read off the positions: hw + size == appl + boundary exactly if the ring is full and the device is not before the application. |
| `Pcm.FullAcrossHappens` | pcb_test/tinyalsa/pcm.c:797-809 | Every ring with a boundary above its size can be full across the wrap, with the application anywhere in its first round. |
| `Pcm.AvailWrong` | pcb_test/tinyalsa/pcm.c:797-809 | Two concrete states in which what is computed is not what is free. |
| `Pcm.Device.Avail` | pcb_test/tinyalsa/pcm.c:819-826 | After the device has moved on, what is available is the free space if and only if the ring is not full across the wrap; else it is the boundary. |
| `Pcm.CaptureAvail` | pcb_test/tinyalsa/pcm.c:811-817 | What the device has captured, exactly if that is less than the boundary. |
| `Pcm.Device.ApplForward` | pcb_test/tinyalsa/pcm.c:828-837 | Moves the application on by the frames, modulo the boundary, and keeps to the range up to and with the boundary. |
| `Pcm.Device.Begin` | pcb_test/tinyalsa/pcm.c:839-864 | Grants a stretch that does not leave the ring; it keeps clear of what is still to be played if and only if the positions do not show a full ring across the wrap or nothing is wanted, and it is empty exactly if nothing is wanted or the ring is full without that, whatever the device has played meanwhile; fewer frames than wanted are granted only up to the end of the ring or of the free space. |
| `Pcm.Device.AreasCopy` | pcb_test/tinyalsa/pcm.c:310-328 | Copies the frames to their cells and leaves the others. |
| `Pcm.Device.Commit` | pcb_test/tinyalsa/pcm.c:866-873 | Appends the copied frames to what the device plays. |
| `Pcm.Device.Transfer` | pcb_test/tinyalsa/pcm.c:330-352 | For frames that fit what is free, ends and returns their number; frame i is in cell (appl + i) mod size, other cells are unchanged, the position has moved on by the frames, and the device plays them in order, while it plays any number meanwhile. |
| `FrameRing.SharedRing.Read` | sharemem_sample/local_ipc_data_share_memory/local_ipc_data_share_memory.c:272-291 | Takes the oldest frames in order, or changes nothing if there are fewer or the count is negative. |
| `FrameRing.SharedRing.Write` | sharemem_sample/local_ipc_data_share_memory/local_ipc_data_share_memory.c:293-312 | Appends the frames, or replaces the whole backlog by them if they do not fit behind it. |
| `FrameRing.SharedRing.Clear` | sharemem_sample/local_ipc_data_share_memory/local_ipc_data_share_memory.c:315-331 | Empties the ring. |
| `FrameRing.TooMany` | sharemem_sample/local_ipc_data_share_memory/local_ipc_data_share_memory.c:278-282 | The unsigned comparison of wrapped counters refuses exactly the counts that are negative or more than there is. |
| `FrameRing.WrapKeepsPlace` | sharemem_sample/local_ipc_data_share_memory/local_ipc_data_share_memory.c:283-289 | Counters that wrap at 2^32 find their place for all totals exactly if the ring's size divides 2^32. |
| `FrameRing.RunAccounted` | sharemem_sample/local_ipc_data_share_memory/local_ipc_data_share_memory.c:272-331 | The bounded queue that the ring refines: over any run, what was read and what is left is what was written, in order, without the dropped backlogs. |
| `FrameRing.RunRing` | sharemem_sample/local_ipc_data_share_memory/local_ipc_data_share_memory.c:272-331 | Any run of reads, writes and clears on the ring itself, its counters wrapping at 32 bits, reads what the bounded queue reads and leaves its backlog; so reads and backlog are the writes in order without the dropped backlogs. The size divides 2^32, or fewer than 2^32 frames come between resets. |
| `MsgQueue.StepInv` | Common/Compement/src/MQ/msg_def.cpp:121-166 | Every step of either thread keeps: unread slots hold the messages sent and not received, in order, and tokens plus posts under way are one more than messages until the consumer has been told once that the queue is empty. |
| `MsgQueue.FullCheck` | Common/Compement/src/MQ/msg_def.cpp:130-153 | The two index comparisons mean exactly full but for one slot, and empty. |
| `MsgQueue.NoOverwrite` | Common/Compement/src/MQ/msg_def.cpp:149-159 | No slot with an unread message is the one the producer writes to. |
| `MsgQueue.FirstInFirstOut` | Common/Compement/src/MQ/msg_def.cpp:58-166 | In every interleaved run from the start, received messages are a prefix of those sent, the others are in the slots in order, and "empty" was reported at most once. |
| `MsgQueue.AcceptedArrive` | Common/Compement/src/MQ/msg_def.cpp:121-166 | In every interleaved run from the start, the messages that the consumer comes back with are, in order, the first of those that were given to the queue and not refused, as read off the steps; a consumer that waits for good while no send is under way has all of them. |
| `MsgQueue.NoMessageForgotten` | Common/Compement/src/MQ/msg_def.cpp:129-163 | A consumer that blocks while no send is under way has received everything that was sent. |
| `MsgQueue.RefusedWhenFull` | Common/Compement/src/MQ/msg_def.cpp:149-153 | In every run a message is refused exactly when all slots but one are taken. |
| `MsgQueue.EmptyOnce` | Common/Compement/src/MQ/msg_def.cpp:69-78 | The token that the semaphore starts with does let the consumer find an empty queue once. |
| `CallMachine.StateMachine.Execute` | Common/Compement/src/StateMachine/state_machine.cpp:623-704 | One message: a repeated one changes nothing, an expected one runs its action and reports the new state, an unexpected one is counted or resets the machine. |
| `CallMachine.RepeatedIgnored` | Common/Compement/src/StateMachine/state_machine.cpp:667-669 | A message is ignored exactly if it repeats the last one. |
| `CallMachine.CallBegins` | Common/Compement/src/StateMachine/state_machine.cpp:430-450 | For the messages 0, 1, 8 and 9: expected in the idle state alone, with the action and the next state; anywhere else they are counted, or reset the machine. |
| `CallMachine.CallAnswered` | Common/Compement/src/StateMachine/state_machine.cpp:430-450 | The same for 2, 4 and 7: where each of them is expected, with the action and the next state. |
| `CallMachine.CallOver` | Common/Compement/src/StateMachine/state_machine.cpp:430-450 | The same for 3, expected in all ten states of an Alexa call. |
| `CallMachine.CallHungUp` | Common/Compement/src/StateMachine/state_machine.cpp:430-450 | The same for 5 and 6. |
| `CallMachine.OutgoingAnswered` | Common/Compement/src/StateMachine/state_machine.cpp:623-704 | An Alexa call out: the messages 0, 2, 3 take an idle machine through SendStart and SendConnected to Idle with the actions 1, 4, 7. |
| `CallMachine.OutgoingUnanswered` | Common/Compement/src/StateMachine/state_machine.cpp:623-704 | 0, 3: the actions 1, 6. |
| `CallMachine.OutgoingDropped` | Common/Compement/src/StateMachine/state_machine.cpp:623-704 | 0, 5, 3: through SendStartToStop, the actions 1, 8, 6. |
| `CallMachine.OutgoingHungUp` | Common/Compement/src/StateMachine/state_machine.cpp:623-704 | 0, 2, 5, 3: through SendConnectedToStop, the actions 1, 4, 8, 7. |
| `CallMachine.IncomingAnswered` | Common/Compement/src/StateMachine/state_machine.cpp:623-704 | An Alexa call in: 1, 4, 2, 3 go through RecvStart, RecvAccept and RecvConnected to Idle with the actions 2, 3, 5, 11. |
| `CallMachine.IncomingMissed` | Common/Compement/src/StateMachine/state_machine.cpp:623-704 | 1, 3: the actions 2, 9. |
| `CallMachine.IncomingRefused` | Common/Compement/src/StateMachine/state_machine.cpp:623-704 | 1, 5, 3: through RecvStartToStop, the actions 2, 8, 9. |
| `CallMachine.IncomingDropped` | Common/Compement/src/StateMachine/state_machine.cpp:623-704 | 1, 4, 5, 3: through RecvAcceptToStop, the actions 2, 3, 8, 10. |
| `CallMachine.IncomingHungUp` | Common/Compement/src/StateMachine/state_machine.cpp:623-704 | 1, 4, 2, 5, 3: through RecvConnectedToStop, the actions 2, 3, 5, 8, 11. |
| `CallMachine.PstnOutEnded` | Common/Compement/src/StateMachine/state_machine.cpp:623-704 | A call out over the telephone network: 8, 7, 6, the actions 12, 13, 16. |
| `CallMachine.PstnOutHungUp` | Common/Compement/src/StateMachine/state_machine.cpp:623-704 | 8, 7, 5: the actions 12, 13, 15. |
| `CallMachine.PstnInEnded` | Common/Compement/src/StateMachine/state_machine.cpp:623-704 | A call in over the telephone network: 9, 4, 6, the actions 13, 14, 13. |
| `CallMachine.PstnInHungUp` | Common/Compement/src/StateMachine/state_machine.cpp:623-704 | 9, 4, 5: the actions 13, 14, 15. |
| `CallMachine.TransitionOwes` | Common/Compement/src/StateMachine/state_machine.cpp:93-450 | Along every entry of the table, an action exits only what is open and enters nothing twice, and what is then open is what the next state owes. |
| `CallMachine.MessageOwes` | Common/Compement/src/StateMachine/state_machine.cpp:669-698 | After any message the open actions are those of the state exactly unless the message reset a machine with something open. |
| `CallMachine.RunOwes` | Common/Compement/src/StateMachine/state_machine.cpp:623-704 | In every run without a reset the open actions are a function of the state, and none in the idle state. |
| `CallMachine.ResetAfterTraps` | Common/Compement/src/StateMachine/state_machine.cpp:672-683 | The counter is the number of unexpected messages in a row, never more than 16, and a reset comes exactly when it is 16 and one more comes. |
| `CallMachine.ResetLeavesOpen` | Common/Compement/src/StateMachine/state_machine.cpp:672-683 | From every state that owes something, seventeen unexpected messages of alternating types end in the idle state with all of it still open. |
| `CallMachine.TransitionSeparates` | Common/Compement/src/StateMachine/state_machine.cpp:430-450 | No entry of the table leads from an Alexa call to a PSTN call, back, or to the unknown state. |
| `CallMachine.IdleBetween` | Common/Compement/src/StateMachine/state_machine.cpp:623-704 | In every run, resets included, the machine has been idle between a state of an Alexa call and one of a PSTN call. |

## Left out

- RbRuns.Run: the search for a leaf's place by a caller's keys is left to the caller; a place is an index of the in-order sequence.
- RbAugment.AugmentPath: `func` is a function of a node and its children's aggregates; other effects of the callback are not modelled.
- JsonRoundTrip.RoundTrip: raw text (`cJSON_Raw`), NULL strings and keys, and numbers whose text does not read back are outside of it, because they print like other values or like nothing.
- JsonRoundTrip.RoundTrip: values are trees of sequences; the parser's linking of siblings by `next` and `prev` is not modelled.
- JsonParse.ParseWithOpts: of the position of an error only its bounds are stated.
- JsonPrint.PrintBuffered: allocation never fails, sizes that do not fit `size_t` do not occur, and size 0 without `realloc` is excluded, because the source reads outside the buffer there.
- JsonItems.Compare: case-insensitive comparison and lookup are not modelled; numbers are reals, so NaN does not occur.
- JsonDuplicate.Duplicate: reference and constant-key flags are not modelled, and allocation never fails.
- Minify.Minify: texts with a literal or a comment that is not closed are not modelled, because the source reads past the end of them.
- Pcm.Device.Transfer: frames are single values; conversion to bytes, the capture direction and a failing `ioctl` are not modelled. More frames than are free make the loop wait for the device, which is not modelled.
- FrameRing.SharedRing.Write: a write of more frames than the ring has would leave the shared memory and is excluded; the semaphore is modelled by one operation at a time.
- MsgQueue.FirstInFirstOut: one producer, because the check for room is made before the lock is taken; the queue is a value that the steps of the two threads change, as the threads interleave.
- CallMachine.StateMachine.Execute: `msg_produce` is used as an index without a check in the source; only values from 0 to 9 are modelled. The second level of states, the thread of the machine and the devices behind its actions are left out.
- Number text, `strtod` and the locale.
- The Minify of `json/cjson_sample/cJSON.c`, which takes a string that ends in an escaped backslash for one that goes on.
- The other cJSON operations: creating, adding, detaching and replacing items.
- The other list routines; `MergeSortedList` loses the rest of a list (`algorithms_datastructures/algorithms_datastructures.c:188-189`).
- The jitter buffer in `sharemem_sample/UnitTestShareMem.c`, whose index can leave its range.
- `ConfigurationNode` and the rapidjson samples: rapidjson is not part of this model.
- Sockets, the PCBA server, storage, LEDs and sound devices, logging, thread attributes, POSIX message queues, mapping of memory and the undoing of semaphores.
