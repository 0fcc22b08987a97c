# A verified model of the library's data structures, strings and JSON parser

The library is a set of C building blocks. This project models the ones with the most intricate state and
proves what they promise, for all inputs and over all runs:

- the dictionary of `src/adt/dict.c`: a red-black tree of the caller's own nodes, which are linked and unlinked
  by identity, with searching, in-order traversal, linear-time loading of sorted nodes, and merging;
- the resizable hash table of `src/adt/hash.c` and its scanner, which survives the deletion of what it returned;
- the linked list of `src/adt/list.c` with transfer of stretches, merging and sorting;
- the hierarchical allocator of `src/mem/halloc.c`, which releases a block with everything below it;
- the length-prefixed strings of `src/bstring/bstrlib.c`: growth, concatenation, insertion, deletion, substring
  search, find and replace, and streams with over-reads and un-reads;
- the codecs of `src/bstring/bstraux.c`: base64, UU and yEnc;
- the two-pass JSON parser of `src/json.c` and the stackless release of its tree.

## How the model is built

What the source updates in place is a class with those fields (`Dict`, `DictLoad`, `Hash`, `Scanner`, `List`,
`Hierarchy`, `BString`, `BStream`, `Parser`, `Memory`); its methods follow the source's branches and are proved
against a specification on sequences, trees or maps, about which the other results are proved.

- *Dictionary.* The nodes are objects with `left`, `right`, `parent` and `color`. A ghost tree (and a zipper for a
  place in it) says what they are linked up as; `Snapshot` takes the fields of a set of nodes as a value, so that
  each step of a loop is a lemma about two snapshots. `InOrder` of the tree is the meaning of the dictionary.
- *Hash table.* The chains are sequences of nodes; `Placed` says that each node is in the chain of its hash value.
  `ops` and `work` count operations and the steps of resizing.
- *List.* `Ring` says that the sentinel and the nodes are linked both ways in the order of `nodes`.
- *Allocator.* Memory is a map from addresses to blocks whose links are addresses of fields; the ghost `forest` is
  the hierarchy that the links spell out.
- *Strings.* `BString` has the buffer, `slen` and `mlen`. The 32-bit sums are written out with `Int32`, which wraps.
- *JSON.* `Document` is a recursive grammar of the accepted texts. `Meaning` gives the outcome from the middle of the
  text for every state of the loop. `Layout` is the array of nodes of a value, with the pointers as indices. What a
  text *denotes* is defined apart from the grammar in `JsonMeaning`, with an encoder and a decoder of UTF-8. The texts
  themselves are written down in `JsonNumbers` and `JsonText`, and `JsonAccepted` proves that just those are accepted.
  A double is a real number; the integers it is computed from wrap around as in the source.
- *Codecs.* `Base64Law`, `UuLaw` and `YLaw` say what the encoded texts are by literal characters and their places, and
  what any text decodes to, apart from the functions that the methods are proved against.

Comparison, hashing, matching and the bytes that a stream's source gives are parameters; so is the address that the
allocator returns, or its failure.

## Where the code does less than one may expect

Each of these is stated with the exact condition for all inputs; where a promise is broken there is a failing input.

- `dict_merge` puts the source's entry first where the keys of two entries are equal.
- `list_sort` is not stable: it reverses equal elements (`List.Sort` proves that order exactly).
- `bdelete` is documented to clamp its range. It does so exactly when `pos + len` is an int (`DeleteExact`);
  otherwise the length may become negative (`DeleteOverflows`).
- `bconcat` accepts a text of `INT_MAX` bytes and then writes past the buffer (`BString.Concat`, `overrun`).
- `bsreada` is documented to read `n` bytes, or all that remain. With an empty buffer and room in the destination it
  stops after one read of the source (`BStream.ReadBlock`, `ShortDirectRead`).
- `json_parse` cuts an object's array size down to an int, which is exact below 2^27 members (`ValuesSizeExact`). It
  gives the value of a JSON text exactly when every integer is a long, so is each of the three parts of every other
  number (the digits before the point, those after it, and the exponent, which does not matter for zero), and no
  character is written as a surrogate pair (`RoundTripExact`, `SurrogatePair`, `WideInteger`, `WideFraction`). It also
  accepts texts that are not JSON, and exactly these (`AcceptedExactly`): a comma before a closing bracket, any escaped
  byte, raw control characters other than NUL, and a minus sign that no digit follows, alone or before an exponent.
- `halloc` writes to the old address when a block that lies under no other moves (`Hierarchy.Halloc`, `wild`).

## Model

| member | source | states |
|---|---|---|
| RedBlackTree.RotateLeft | src/adt/dict.c:77-99 | the six links of a left rotation change and no other field of any node |
| RedBlackTree.RotateRight | src/adt/dict.c:106-125 | the mirror image |
| RedBlackTree.RotateAt | src/adt/dict.c:77-125 | nodes linked up as a tree in a context are, after those link changes, linked up as the rotated tree in the same context |
| RedBlackTree.InOrderRotated | src/adt/dict.c:77-125 | a rotation keeps the order of the entries |
| RedBlackTree.PlugValid | src/adt/dict.c:172-201 | a red-black tree put into a hole of its height that tolerates its colour gives a valid tree, once the root is black |
| Dictionary.Dict.constructor | src/adt/dict.c:334-352 | a new dictionary is well-formed and empty |
| Dictionary.Dict.Clear | src/adt/dict.c:396-403 | the dictionary is empty and well-formed whatever the links of its former nodes are |
| Dictionary.Dict.First | src/adt/dict.c:917-926 | the node of the first entry in key order, or null |
| Dictionary.Dict.Next | src/adt/dict.c:951-970 | the node of the next entry in key order, or null after the last |
| Dictionary.Dict.Lookup | src/adt/dict.c:470-501 | the first entry in order whose key equals the given one, among duplicates too, or null; 2^calls is at most the square of the node count plus one |
| Dictionary.Dict.LowerBound | src/adt/dict.c:508-533 | the first entry not below the key, or null, in logarithmically many comparisons |
| Dictionary.Dict.UpperBound | src/adt/dict.c:540-565 | the last entry not above the key, or null, in logarithmically many comparisons |
| Dictionary.Dict.StrictLowerBound | src/adt/dict.c:571-589 | the first entry above the key, or null, in logarithmically many comparisons |
| Dictionary.Dict.StrictUpperBound | src/adt/dict.c:595-613 | the last entry below the key, or null, in logarithmically many comparisons |
| Search.HeightBound | src/adt/dict.c:413-436 | a valid tree of n entries has a height of at most 2 log2 (n + 1) |
| Search.RedBlackSize | src/adt/dict.c:172-201 | a red-black tree of black height h has at least 2^(h-1) - 1 entries and at most two levels for each black one |
| Dictionary.Dict.Insert | src/adt/dict.c:623-712 | the entry comes just after the last one that is not greater; all others keep their place, and the tree stays linked, sorted, red-black and counted |
| Dictionary.Dict.InsertFixup | src/adt/dict.c:665-707 | from a tree with at most a red node under a red parent, the loop ends in a red-black tree with the same entries in the same order |
| Rebalance.RecolorStep | src/adt/dict.c:669-674 | recolouring moves the red-red violation two levels up and changes nothing else |
| Rebalance.InnerStep | src/adt/dict.c:676-681 | the inner rotation turns the inner case into the outer one |
| Rebalance.OuterStep | src/adt/dict.c:682-685 | recolouring and the outer rotation end the violation |
| Dictionary.Dict.Delete | src/adt/dict.c:720-887 | just the target's entry disappears, by node identity, and its links are null; every other node keeps its key and place, no data is touched, and the tree stays linked, sorted, red-black and counted |
| Dictionary.Dict.Unlink | src/adt/dict.c:741-799 | the links without the target: its only child, or its successor with the target's colour, stands in its place, and the one entry is gone |
| Dictionary.Dict.DeleteFixup | src/adt/dict.c:816-880 | from a tree with one black node missing at one place, the loop ends in a red-black tree with the same entries, and in time |
| Deletion.SuccessorInstalled | src/adt/dict.c:741-783 | a target with two children replaced by its successor leaves the entries in order, without the target's |
| Deletion.OneChildRemoved | src/adt/dict.c:785-799 | a target with at most one child replaced by it leaves the entries in order, without the target's |
| Deletion.RedSisterStep | src/adt/dict.c:821-827 | a red sister is rotated away: the same node lacks a black one, now beside a black sister |
| Deletion.BlackNephewsStep | src/adt/dict.c:828-831 | a black sister with black children is painted red: the lack moves up one level |
| Deletion.InnerNephewStep | src/adt/dict.c:833-840 | a red inner nephew becomes a red outer one |
| Deletion.OuterNephewStep | src/adt/dict.c:841-845 | a red outer nephew ends the lack |
| Loader.DictLoad.constructor | src/adt/dict.c:1103-1108 | an empty load list |
| Loader.DictLoad.Next | src/adt/dict.c:1116-1138 | the node and key come at the end of the load list; only left links, the new key and the list's end are written |
| Loader.DictLoad.End | src/adt/dict.c:1140-1219 | the loaded nodes, in the order of loading, are a well-formed red-black dictionary; only links and colours are written |
| Loader.DictLoad.PlaceAll | src/adt/dict.c:1157-1199 | after the loop every loaded node is in the half-built trees in order, and no node of the rows above the bottom one is missing |
| LoadTree.CarryStep | src/adt/dict.c:1169-1174 | joining the finished tree to the waiting one on its level keeps the shape and the number of nodes still due |
| LoadTree.NodeStep | src/adt/dict.c:1191-1198 | a node over a finished tree keeps the shape, and one node fewer is due |
| LoadTree.StartCounts | src/adt/dict.c:1152-1155 | the size of the bottom row is what makes the rows above it full |
| Loader.LoadedWellFormed | src/adt/dict.c:1201-1218 | a tree of rows of alternating colours over sorted entries is a well-formed dictionary |
| Merge.DictMerge | src/adt/dict.c:1221-1274 | all nodes of both dictionaries are in the destination in merged order, in a well-formed tree; the source is well-formed and empty; a merge with itself changes nothing; every node keeps its data, and only links, colours and keys of the nodes and the two counts are written |
| Merge.CopyNode | src/adt/dict.c:1249-1269 | the successor is found while the links of the nodes copied so far are overwritten |
| Merge.SortedMerged | src/adt/dict.c:1234-1247 | the merge of sorted entries is sorted, strictly if duplicates are not allowed |
| Merge.MergedContents | src/adt/dict.c:1234-1270 | no entry is lost or doubled |
| Merge.MergedPlaces | src/adt/dict.c:1234-1247 | both dictionaries keep their order in the merge, an entry of the one comes before one of the other when its key is less, and the source's entry comes first where the keys are equal |
| HashTable.Hash.constructor | src/adt/hash.c:293-327 | an empty dynamic table of the initial size |
| HashTable.Hash.Static | src/adt/hash.c:401-423 | an empty table in the caller's memory that never changes its size |
| HashTable.Hash.Insert | src/adt/hash.c:521-543 | the node is added and no other is lost; the table doubles exactly at two nodes a chain, at least half as many operations after the resize before as there were chains; all resizing so far took at most three steps an operation |
| HashTable.Hash.Delete | src/adt/hash.c:593-624 | the node is taken out and no other; the table halves exactly when it is at most half full and above the least size, with the same bounds on resizing |
| HashTable.Hash.Lookup | src/adt/hash.c:559-573 | a node with an equal key, and null just when there is none |
| HashTable.Hash.GrowTable | src/adt/hash.c:158-200 | each chain is split in two by one more hash bit; all nodes stay, each in the chain of its hash value |
| HashTable.Hash.ShrinkTable | src/adt/hash.c:232-261 | each upper chain follows its lower sister; all nodes stay, each in the chain of its hash value |
| HashTable.Hash.TakeNode | src/adt/hash.c:649-673 | one chain lacks one node, which is unlinked; all other chains are as before |
| HashTable.Hash.Clear | src/adt/hash.c:122-128 | an empty table stays as it is, with every chain null |
| HashTable.GrowPaid | src/adt/hash.c:158-200 | the operations since the last resize pay for doubling, and there were at least half as many as chains |
| HashTable.ShrinkPaid | src/adt/hash.c:232-261 | the operations since the last resize pay for halving, and there were at least half as many as chains |
| HashChains.ExposedBit | src/adt/hash.c:168-191 | the hash value modulo the doubled size is the old chain, or its sister when the exposed bit is set |
| HashChains.SplitPlaced | src/adt/hash.c:174-191 | splitting puts every node where its hash value belongs |
| HashChains.SplitNodes | src/adt/hash.c:174-191 | splitting loses no node and brings in no other |
| HashChains.SplitSeparate | src/adt/hash.c:174-191 | splitting puts no node into two places |
| HashChains.FoldPlaced | src/adt/hash.c:240-251 | folding puts every node where its hash value belongs |
| HashChains.FoldNodes | src/adt/hash.c:240-251 | folding loses no node and brings in no other |
| HashScan.Scanner.constructor | src/adt/hash.c:436-454 | a new scan has all nodes before it |
| HashScan.Scanner.Next | src/adt/hash.c:482-506 | a node that was not returned before, and null just when there is none left |
| HashScan.Scanner.Delete | src/adt/hash.c:649-673 | taking a returned node out of the table leaves what the scan has before it unchanged |
| HashScan.NodesFromRemoved | src/adt/hash.c:649-673 | removing a node that was passed, anywhere in the table, changes nothing of what is still to come |
| HashScan.FreeNodes | src/adt/hash.c:349-360 | every node is handed to the release function once, and the table is empty afterwards |
| Lists.List.constructor | src/adt/list.c:58-66 | an empty ring |
| Lists.List.InsBefore | src/adt/list.c:166-183 | the node stands before the given one, or last when that is the sentinel |
| Lists.List.InsAfter | src/adt/list.c:143-160 | the node stands after the given one, or first when that is the sentinel |
| Lists.List.Delete | src/adt/list.c:189-203 | the list without the node, whose links are null |
| Lists.List.Extract | src/adt/list.c:393-434 | the stretch leaves one list and ends the other, in its order, also within one list; both counts are right |
| Lists.List.Transfer | src/adt/list.c:445-483 | the tail leaves one list and ends the other |
| Lists.List.Merge | src/adt/list.c:485-521 | the interleaving of both lists is left, and the second list is empty; a merge with itself changes nothing |
| Lists.List.Sort | src/adt/list.c:523-544 | the same nodes in non-decreasing order, equal ones reversed |
| Lists.List.IsSorted | src/adt/list.c:563-579 | true exactly for a list in non-decreasing order |
| ListOrder.MergedInOrder | src/adt/list.c:505-514 | merging keeps the order of both sorted lists and puts the second one's nodes first on ties |
| ListOrder.MergedSorted | src/adt/list.c:498-521 | merging sorted lists gives a sorted one |
| ListOrder.SortHalves | src/adt/list.c:538-543 | halves sorted with ties reversed merge to the whole sorted with ties reversed |
| ListOrder.SortedUnique | src/adt/list.c:523-544 | there is one order only that is sorted with ties reversed |
| Halloc.Hierarchy.Halloc | src/mem/halloc.c:58-109 | allocation adds a block under no other; reallocation moves a block with its place and its children and keeps the bytes; length zero releases the block and all below it; failure changes nothing; exactly when a block under no other moves does the source write to its old address |
| Halloc.Hierarchy.Attach | src/mem/halloc.c:111-139 | the block leaves its parent's list and is first among the new parent's children; no data changes and the hierarchy stays acyclic |
| Halloc.Hierarchy.Relate | src/mem/halloc.c:214-233 | true exactly when the one block lies below the other |
| Halloc.Hierarchy.FreeChildren | src/mem/halloc.c:235-253 | all blocks below are released, children before parents, and nothing else changes |
| Halloc.ReleasedOnce | src/mem/halloc.c:103-106 | what is released is the block and all below it, each once |
| BlockForest.OrderNoRepeat | src/mem/halloc.c:247-252 | no block is released twice |
| BlockForest.ChildFirst | src/mem/halloc.c:247-252 | a block is released after each of its children |
| BlockForest.Common | src/mem/halloc.c:214-233 | of two blocks with something below them in common one lies below the other |
| BlockForest.Below | src/mem/halloc.c:214-233 | what lies below a block is under a parent that does so too, so that no block lies below itself |
| BlockLaws.DetachedBelow | src/mem/halloc.c:125 | a detached block takes all below it along, in order, and lies below nothing |
| BlockLaws.AttachedBelow | src/mem/halloc.c:138 | all below an attached block comes below its new parent, in order |
| BlockLaws.RenamedBelow | src/mem/halloc.c:94-98 | a moved block keeps what is below it and its place among its parent's children |
| BlockMoves.DetachedLinked | src/mem/hlist.h:110-120 | unlinking a block makes the links those of the hierarchy without its place, in its parent's list and nowhere else |
| BlockChanges.AttachedLinked | src/mem/hlist.h:99-108 | linking a block makes the links those of the hierarchy with it as first child |
| BlockChanges.RenamedLinked | src/mem/hlist.h:122-133 | relinking a moved block makes all links to it and to its first child lead to the new address |
| BlockChanges.WithoutLinked | src/mem/halloc.c:103-108 | without a released subtree the links of the other blocks are those of what is left |
| WordBits.OrDoubles | src/bstring/bstrlib.c:78-86 | a word or-ed with itself shifted by m bits has twice as many bits set at its top, and is no longer |
| WordBits.SmearPowerOfTwo | src/bstring/bstrlib.c:78-89 | the shifts and ors make any word one less than the least power of two above it |
| BStrings.SnapUpPower | src/bstring/bstrlib.c:71-93 | a capacity is the least power of two above the length and not below 8, and the length itself from 2^30 on, where that power is not an int |
| BStrings.BString.Alloc | src/bstring/bstrlib.c:99-153 | as many bytes as asked for may be written, the capacity is the old one or the one snapped up to, the buffer never shrinks, and the text and its terminator stay |
| BStrings.BString.Concat | src/bstring/bstrlib.c:318-344 | the text is appended and terminated, or nothing changes; the original writes past the buffer exactly for a result of INT_MAX bytes |
| BStrings.BString.ConChar | src/bstring/bstrlib.c:350-360 | the byte is appended, or nothing changes, exactly when there is no room for it in an int |
| BStrings.BString.CatBlk | src/bstring/bstrlib.c:392-405 | the block is appended, or nothing changes, exactly when the length is not an int |
| BStrings.BString.Insert | src/bstring/bstrlib.c:1455-1494 | the text is inserted after any fill bytes that are missing, or nothing changes, exactly when the length is not an int |
| BStrings.BString.Delete | src/bstring/bstrlib.c:965-987 | the clamped range is cut out when the sums are ints; else the length that wrap-around gives, and exactly when the original writes outside of the buffer |
| BStrings.DeleteExact | src/bstring/bstrlib.c:966-983 | success and the length are as documented exactly when no sum of bdelete overflows |
| BStrings.DeleteOverflows | src/bstring/bstrlib.c:976-982 | deleting INT_MAX bytes from position 1 of five bytes makes the length negative |
| BStrings.DeletedInserted | src/bstring/bstrlib.c:1455-1494 | deleting what was inserted gives the text back, up to the fill bytes |
| StringSearch.Binstr | src/bstring/bstrlib.c:1023-1099 | the least position from the given one on where the pattern occurs, and the error value when there is none or an argument is not valid |
| StringSearch.GaplessOccurs | src/bstring/bstrlib.c:1086-1087 | bytes found one after the other, no further apart than the pattern is long, are an occurrence |
| StringSearch.NothingLeft | src/bstring/bstrlib.c:1093-1098 | when the scan ends there is no occurrence |
| FindReplace.FindReplaceEngine | src/bstring/bstrlib.c:1554-1692 | all of the leftmost, non-overlapping matches from the position on are replaced and nothing else changes, whichever strategy is taken; it fails exactly for invalid arguments or a result that is too long, and the text stays then |
| FindReplace.FindReplace | src/bstring/bstrlib.c:1700-1702 | the same for matches by equality, with the same condition for failing: an error for invalid arguments or a result that is too long, and success in all other cases |
| FindReplace.ReplacedAt | src/bstring/bstrlib.c:1641-1691 | the replacement stands where each match was, moved by the growth of the matches before it |
| FindReplace.ReplacedElsewhere | src/bstring/bstrlib.c:1585-1691 | every byte outside of the matches is kept, moved by the growth of the matches before it |
| FindReplace.ReplaceEqual | src/bstring/bstrlib.c:1585-1595 | overwriting in place gives the replaced text |
| FindReplace.ReplaceShrink | src/bstring/bstrlib.c:1597-1621 | moving the segments down in place gives the replaced text |
| FindReplace.ReplaceExpand | src/bstring/bstrlib.c:1637-1691 | moving the segments up from the last match to the first gives the replaced text |
| FindReplace.FindAll | src/bstring/bstrlib.c:1637-1663 | the growable array holds all matches, unless there are too many or the length is not an int |
| FindReplace.CutsLeftmost | src/bstring/bstrlib.c:1641-1663 | the matches taken do not overlap, and every match begins within one of them |
| FindReplace.CutsUnique | src/bstring/bstrlib.c:1641-1663 | these properties leave one choice of matches only |
| FindReplace.TailLength | src/bstring/bstrlib.c:1657-1669 | the length changes by the difference of the two strings for every match |
| FindReplace.BinstrIsNext | src/bstring/bstrlib.c:1701 | what the substring search returns is the first match by equality |
| Streams.BStream.constructor | src/bstring/bstrlib.c:1926-1938 | a stream of the given buffer size with nothing delivered and everything pending |
| Streams.BStream.ReadLine | src/bstring/bstrlib.c:1983-2108 | a line up to and including the first terminator is appended, or all that is left when there is none; what was pending is the line and what is pending now; the end is marked only when no terminator was found, and no more than one chunk is read ahead |
| Streams.BStream.ReadBlock | src/bstring/bstrlib.c:2118-2173 | bytes are appended in order and none is lost; fewer than asked for come while the source goes on exactly when one read went straight into the destination and was short; a full block leaves the end mark as it was |
| Streams.BStream.Unread | src/bstring/bstrlib.c:2229-2232 | the bytes are pending before everything else, or nothing changes, exactly when the buffer would get too long |
| Streams.ReadsConserve | src/bstring/bstrlib.c:1983-2173 | over any run of reads, what was delivered and what is pending make up the source, in order |
| Streams.ReplayUnique | src/bstring/bstrlib.c:1912-1918 | the source and the events determine what is pending |
| Streams.UnreadUndoes | src/bstring/bstrlib.c:2223-2232 | putting back what was just delivered undoes the read |
| Streams.LineUnique | src/bstring/bstrlib.c:2040-2046 | the bytes determine the line |
| Streams.ShortDirectRead | src/bstring/bstrlib.c:2133-2145 | a source of two bytes that gives them one by one: a block read of three delivers one and leaves the other, and the end is not reached |
| Base64.Encode | src/bstring/bstraux.c:308-371 | the base64 text with its line breaks, and no result exactly when it is too long |
| Base64.DecodeEx | src/bstring/bstraux.c:393-493 | the decoded bytes; truncation is reported, or gives no result, exactly when the text ends within a group |
| Base64.RoundTrip | src/bstring/bstraux.c:308-493 | decoding the encoding gives the bytes back, wherever the lines are broken |
| Base64.EncodeAndDecode | src/bstring/bstraux.c:308-493 | encoding and then decoding a string gives its text, and fails exactly when the encoding is too long |
| Base64.EncodedLength | src/bstring/bstraux.c:315-368 | four letters for three bytes, and two bytes for each 57 |
| Base64Law.LetterInAlphabet | src/bstring/bstraux.c:302 | the letter of each sextet is the character at its place in the written-out alphabet of RFC 1341 |
| Base64Law.SymbolInAlphabet | src/bstring/bstraux.c:376-386 | a character decodes to a sextet exactly when it is that letter of the alphabet, and is padding exactly when it is '=' |
| Base64Law.GroupAt | src/bstring/bstraux.c:315-366 | each group of three bytes, and the one or two last ones with padding, stands at its place as the four characters of its 24 bits |
| Base64Law.BreakAt | src/bstring/bstraux.c:316-321 | CR LF stands before the group at each multiple of 57 bytes |
| Base64Law.DecodeDenoted | src/bstring/bstraux.c:393-493 | every text decodes to the bytes of its letters up to the first padding, all others skipped, or, when it ends within a group, to the whole groups before that |
| SextetBits.SplitNumber | src/bstring/bstraux.c:322-327 | the shifts and masks write the same 24 bits in groups of six |
| SextetBits.JoinSplit | src/bstring/bstraux.c:416-481 | joining the groups gives the three bytes back |
| UuCodec.UuEncode | src/bstring/bstraux.c:722-753 | the UU text, and no result exactly when it is too long |
| UuCodec.UuDecLine | src/bstring/bstraux.c:504-573 | the text and the outcome are those of decoding the line group by group, which inverts the encoding of a line; a bad line is an error unless the caller counts them |
| UuCodec.LineDecodes | src/bstring/bstraux.c:504-753 | a line that was encoded decodes to its bytes without error |
| UuCodec.UuRoundTrip | src/bstring/bstraux.c:504-753 | decoding the lines of an encoding one after the other gives the bytes back |
| UuLaw.UuLineAt | src/bstring/bstraux.c:728-748 | each line stands at its place: the character of its length, its groups of four characters, CR LF |
| UuLaw.UuLength | src/bstring/bstraux.c:728-748 | 63 characters for each full line, and what the last one needs |
| UuLaw.UuDecodedDenoted | src/bstring/bstraux.c:504-573 | what any line decodes to, by its characters and their places: nothing when its length is wrong, it ends too early or a character is not tolerated, and otherwise the bytes its characters stand for; it is bad in these cases, and when a character stands for no sextet |
| YCodec.YEncode | src/bstring/bstraux.c:761-783 | the yEnc text, and no result exactly when it is too long |
| YCodec.YDecode | src/bstring/bstraux.c:792-839 | the decoded bytes, through a buffer of 64; no result exactly for a NUL byte, an escape at the end, or a result that is too long |
| YCodec.YRoundTrip | src/bstring/bstraux.c:761-839 | decoding the encoding gives the bytes back |
| YLaw.CharToken | src/bstring/bstraux.c:767-776 | a byte is written as the character 42 above it, or where that is '=', NUL, CR or LF, as '=' and the character 64 above that |
| YLaw.TokensDecode | src/bstring/bstraux.c:803-827 | any row of plain characters, escaped ones and line ends decodes to the bytes of its characters |
| YLaw.BrokenText | src/bstring/bstraux.c:803-827 | a text is refused exactly when it is no such row |
| JsonGrammar.Int64Digit | src/json.c:592 | accumulating digits in a wrapping long gives the wrapped value of them all |
| JsonNumbers.NumberRead | src/json.c:478-673 | every number of section 6 of RFC 8259, with fraction and exponent, is accepted and read to its end; it is an integer exactly without these, and otherwise a double of the longs that its three parts wrap to |
| JsonNumbers.NumberParsed | src/json.c:478-673 | where the parser accepts a number, one of that form stands there, or a minus sign without digits |
| JsonDoubles.DoubleStoredExact | src/json.c:566-671 | a double is the value of its digits exactly when the digits before the point, those after it, and the exponent (unless all digits are zero) are longs |
| JsonMachine.NextMeaning | src/json.c:227-733 | every round of the loop keeps the outcome that the grammar gives the text, and an error comes only when that is one |
| JsonSteps.NumberStops | src/json.c:483-493 | in an accepted text no number byte follows a value, so that pass two, which skips number bytes, stops where pass one did |
| JsonSteps.NumberSkipped | src/json.c:483-493 | skipping ends at the end of the number and leads to the same outcome |
| JsonSteps.StringNext | src/json.c:247-364 | the length of a string does not depend on how much of it was read, so that pass two has the room that pass one counted |
| JsonLayout.Locate | src/json.c:104-110 | in the order of allocation the nodes of the value that is read next are just those after the nodes of the open containers |
| JsonLayout.ValuesSizeExact | src/json.c:127 | an object's array size is what is needed exactly below 2^27 members; it is negative at 2^27 and zero at 2^28 |
| JsonLayout.SizesAll | src/json.c:127-135 | all sizes are what is needed exactly when no object has 2^27 members |
| JsonParser.Parser.Parse | src/json.c:193-738 | a root is returned exactly when the grammar accepts the text and no object has 2^27 members; the nodes are then those of the document, complete; pass two is entered exactly for an accepted text |
| JsonParser.Parser.Pass | src/json.c:221-736 | one pass succeeds exactly for an accepted text (in pass two with objects that fit), and leaves the document's nodes, with their memory in pass two |
| JsonParser.Parser.Step | src/json.c:227-733 | one round keeps the outcome and the nodes in step with the text, and moves on |
| JsonParser.Parser.StringByte | src/json.c:247-364 | a byte of a string leads to the state that the grammar expects, or the text is not accepted |
| JsonParser.Parser.NewValue | src/json.c:98-175 | the next node is taken, with the room that pass one counted; it fails only for an object that is too large |
| JsonBits.EncodedBits | src/json.c:293-305 | the masks and shifts compute the UTF-8 bytes of the code |
| JsonText.RoundTrip | src/json.c:193-738 | every JSON text, with any white space, escapes and numbers, and every other text of the accepted form, is accepted; its value has every integer wrapped to a long and every escape encoded on its own |
| JsonText.OkAccepted | src/json.c:193-738 | the JSON texts are among those of the accepted form |
| JsonText.Literals | src/json.c:227-564 | the bytes of the grammar are the characters and the words of RFC 8259 |
| JsonAccepted.AcceptedExactly | src/json.c:193-738 | a text is accepted if and only if it is of the accepted form, with that form's value |
| JsonAccepted.ValueParsed | src/json.c:366-732 | where the grammar reads a value, a text of the accepted form stands there, with that value and end |
| JsonAccepted.StringParsed | src/json.c:247-364 | what the grammar reads as a string is written in raw bytes and escapes, with those bytes |
| JsonText.ValueRead | src/json.c:366-732 | where the text of a value stands, the grammar reads that value and stops after it |
| JsonMeaning.DecodeEncode | src/json.c:280-308 | a UTF-8 decoder of shortest forms inverts the encoder for every code point, whatever follows |
| JsonMeaning.EscapeLiterals | src/json.c:252-313 | the short escapes and the hexadecimal digits by literal characters |
| JsonMeaning.CharsExact | src/json.c:268-308 | a string's stored bytes are those of its characters exactly when none is written as a surrogate pair |
| JsonMeaning.StoredLength | src/json.c:268-308 | each such pair takes six bytes in place of four |
| JsonMeaning.SurrogatePair | src/json.c:280-308 | U+1F600 written as two escapes is stored as ED A0 BD ED B8 80 and not as F0 9F 98 80 |
| JsonMeaning.StoredExact | src/json.c:193-738 | what the parser stores is what the text denotes exactly when every integer and every part of a double is a long, and no string or key has a surrogate pair |
| JsonMeaning.RoundTripExact | src/json.c:193-738 | a JSON text is accepted, and gives what it denotes exactly when it is exact in that sense |
| JsonMeaning.WideInteger | src/json.c:592 | twenty nines are JSON and come out as 7766279631452241919 |
| JsonMeaning.WideFraction | src/json.c:596-635 | zero, a point and twenty nines are JSON and come out as 0.07766279631452241919 |
| JsonTree.ReadLayout | src/json.c:98-175 | reading the nodes through their pointers gives the value |
| JsonTree.TreeIsDocument | src/json.c:193-738 | the finished tree, read through its pointers, is the document |
| JsonFree.Memory.ValueFree | src/json.c:789-837 | without a stack, and reading no freed value, everything that belongs to the value is freed, children before containers |
| JsonFree.FreeOnce | src/json.c:789-837 | nothing is freed twice, and only what belongs to the value |
| JsonFree.ChildFirst | src/json.c:789-837 | a child is freed before its container |
| JsonFree.NothingLeft | src/json.c:789-837 | every node is freed, with the array of each container and the bytes of each string, and no other arrays or bytes |
| JsonFree.Descend | src/json.c:800-822 | taking the last child off a container leaves the rest of the tree to be freed as it was |
| JsonRoundTrip.ParseAndFree | src/json.c:193-837 | parse a JSON text, read the tree, free it: a root comes exactly when the objects fit, the tree reads as what the text denotes exactly when that is exact, and all of it is freed once |

## Left out

- JsonParser.Parser.Parse: a text whose first byte other than white space is `]` is excluded, because the source follows a null pointer there (src/json.c:375).
- JsonParser.Parser.NumberByte: the arithmetic of doubles is that of the reals; rounding, and results that are too large or too small for a double, are not modelled.
- JsonGrammar.Int64: signed overflow is modelled as wrap-around, which C leaves undefined; so is the negation of -2^63, of an integer and of an exponent.
- JsonRoundTrip.ParseAndFree: keys with a NUL byte are excluded, because the tree shows a key up to the first NUL byte only.
- BStrings.BString.Concat: the two strings are in different buffers, and a result of INT_MAX bytes is not written; the copies that the source makes of overlapping arguments are not modelled, in insertion and in find and replace neither.
- BStrings.BString.Delete: the byte that the source writes outside of the buffer after an overflow is not written.
- StringSearch.Binstr: the shortcut for two strings that share a buffer is not modelled.
- Streams.BStream.ReadLine: a line that does not fit into an int, with a chunk of the stream's buffer, is excluded.
- Streams.BStream.ReadBlock: a destination of exactly INT_MAX bytes is excluded.
- Streams.BStream.constructor: a buffer size of INT_MAX is excluded; bsbufflength is the parameter of the constructor.
- UuCodec.UuDecLine: what is appended when the text gets too long for an int is not stated; the stream that calls it for each line is not modelled.
- Base64.DecodeEx: a result that is too long cannot happen for a source text of int length; the flag of the source for it is not modelled.
- Dictionary.Dict.Insert: a full dictionary, a node that is in one already, and a duplicate where these are not allowed are excluded, as the source's assertions do.
- Loader.DictLoad.Next: the check of the order in debug builds compares with the first loaded key and is left out; `End` asks for sorted keys.
- HashTable.Hash.Insert: the number of chains does not overflow in the model; an allocation that fails leaves the table as it is in the source and is not modelled.
- HashTable.Hash.Clear: only its effect on a table that holds no node is stated.
- Lists.List.InsBefore: node counts do not wrap around in the model; the maximum is a precondition, as in the source's assertion.
- Halloc.Hierarchy.Halloc: a block is moved as one value; what a write to a released address destroys is not modelled.
- Allocation failure in strings, lists, dictionaries and the parser, and null pointers as arguments.
- The settings of the parser (a memory limit, relaxed commas), its error texts, and line counting.
- Node pools of lists, dict_prev and dict_last, and what is a mirror image of these operations or a loop over them.
- The case-insensitive searchers; find and replace is proved for any correct searcher.
- The other string functions (comparison, trimming, splitting, formatting) and the write streams.
