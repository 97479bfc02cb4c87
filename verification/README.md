# Verified models of a C++ foundation library

Dafny models of the algorithmic core of the library, with proofs. Each part models the source as it works (loops,
in-place arrays, linked nodes, fields that methods update), proves every operation against a small specification, and
proves about that specification what the operation is for. `dafny verify dfyconfig.toml` checks everything.

- **Quotient filter** (`Words`, `PackedSlots`, `SlotBits`, `RingLayout`, `RingUpdate`, `QuotientFilter`, `QuotientIterator`,
  `QuotientRuns`). Three layers: 64-bit words as an array of independent packed slots; the ring of slots with its layout
  invariant (runs in quotient order, remainders strictly increasing within a run, the shifted and continuation bits exactly
  where the layout says, clusters that wrap around, full tables included); and the finite set of (quotient, remainder)
  pairs. The hash of a key is an arbitrary 64-bit word.
- **String matchers** (`Matching`, `BoyerMoore`, `RabinKarp`). Four matchers against one specification, the least
  occurrence, for every 32-bit length: an index that leaves 32 bits is an outcome of its own. Sunday reads one cell behind the
  text, which is there as a terminator.
- **Trees** (`AvlTree`, `AvlNodes`, `SplayTree`, `SplayCost`, `SplayNodes`). Functions on tree values carry the theorems;
  methods on linked nodes that rewrite fields in place are proved to compute exactly those functions, and to take as many steps
  as the amortised bounds count.
- **JSON** (`JsonText`, `JsonParse`, `JsonReader`, `JsonPrinter`, `JsonLayout`, `JsonRoundTrip`, `JsonTermination`,
  `JsonUnfinished`, `JsonCut`, `JsonSpelling`, `JsonObjects`, `JsonGrammar`, `JsonAccepts`, `JsonLanguage`). Both printers, the
  recursive parser over an offset, the round trip, when the parser returns, and exactly which texts it loads as which values. Objects are
  sequences of fields in key order, as `std::map` keeps them. Floating numbers stand for themselves by their printed text;
  which texts `stod` accepts and what a mantissa and an exponent print as are parameters.
- **Caches** (`CacheModel`, `CacheKeys`, `CacheSlots`, `LruCache`, `FifoCache`, `LfuCache`, `CachePolicies`,
  `CacheFrequency`, `CacheRuns`). Lists with stable iterators, end markers, the multimap of counts and the key map, against
  bounded lists, and these against what the operations alone say of keys, values and counts.
  An iterator is the number of the node it stands on; an iterator into the hash map is the key.
- **Concurrency** (`ReadWriteLock`, `ThreadPool`). Step systems over any number of threads, with atomic steps at lock
  boundaries, spurious wakeups, and notifications that a thread can miss.
- **Graphs** (`GraphPaths`, `GraphNodes`, `GraphArcs`, `GraphTraversal`, `TraversalOrder`), **mergeable heaps** (`MergeableHeaps`, `HeapNodes`),
  **infix notation** (`Notation`), **Base64** (`Base64`) and **prime sieves** (`Primes`, `EulerSieve`, `EratosthenesSieve`).
- `Basics` and `Division` hold what several modules share.

Where a property one would expect does not hold of the code, the model keeps the code as it is:

- Loading undoes printing exactly when the value is not a bare number, since a number needs a character behind it, all keys are
  in escaped form, and all floating numbers are what their texts read as (`JsonRoundTrip.LoadUndoesPrinting`).
- `load` need not return: it does not exactly when the text ends in an opening bracket where an array could stand, which is
  decided by loading one other text (`JsonUnfinished.NeverIff`), because the parser steps back onto that bracket.
- Stepping back also lets the last closing bracket count for any number of its kind; apart from that just the texts of the
  grammar are loaded (`JsonLanguage.LoadIff`). A minified text without its last character still loads exactly
  when the bracket before it is of the same kind (`JsonCut.BracketCountedTwice`).
- The infix converter reads its empty stack exactly when a parenthesis closes that is not open, where any operator but the
  five it knows, a space included, undoes the open ones (`Notation.SafeIffClosed`, `Notation.PrefixSafeIffClosed`).
- The sieve of Eratosthenes squares and adds in 32 bits. It is right exactly for limits below 203897
  (`EratosthenesSieve.Eratosthenes`), and at 2^32 - 2 its first loop visits even numbers forever
  (`EratosthenesSieve.InnerEndsIff`); the products of the Euler sieve wrap around exactly from limit 2^31 on
  (`EulerSieve.NoWrapIff`).
- Splay trees are logarithmic on average over any run, but for removals of keys that are not there: those search without
  splaying, and any number of them can look at all nodes (`SplayCost.RunIsLogarithmic`, `SplayCost.MissesAreLinear`).
- A matcher can leave 32 bits only behind the last alignment, so that every occurrence is found (`Matching.Horspool`); Sunday can
  then start again, forever, in a text of 2^32 - 1 bytes (`Matching.Sunday`).
- A heap merged with itself is empty afterwards (`HeapNodes.LeftistHeap.MergeFrom`).
- The Base64 decoder adds letters into free bits exactly when no letter comes, behind stray padding, at a place up to which
  letters other than `A` are still in the stream (`Base64.DecoderDisjointIff`, `Base64.StrayPaddingOverlaps`).
- A merge of quotient filters gives the union exactly when the union fits (`QuotientIterator.Merge`).

## Model

| member | source | states |
|---|---|---|
| `PackedSlots.SlotsAreIndependent` | data_structure/source/filter.cpp:547-580 | after storing an element, its slot reads back the element masked to the slot width and every other slot reads as before, also where slots straddle two words |
| `PackedSlots.InArea` | data_structure/source/filter.cpp:547-580 | every word a slot touches, the second one of a straddling slot included, lies in the allocation |
| `PackedSlots.SetElement` | data_structure/source/filter.cpp:547-563 | the in-place word updates produce the stored area |
| `QuotientFilter.AllocationFits` | data_structure/source/filter.cpp:662-672 | the computed size has room for all slots |
| `QuotientFilter.FilterSizeIs` | data_structure/source/filter.cpp:662-672 | it is the number of slot bits, rounded up to whole bytes |
| `RingLayout.QMonotone` | data_structure/source/filter.cpp:462-486 | along a cluster unrolled from the ring, quotients never decrease |
| `RingLayout.RunHead` | data_structure/source/filter.cpp:462-486 | the position where a quotient's run starts is determined by the layout |
| `RingLayout.LowerBoundDecides` | data_structure/source/filter.cpp:317-343 | the first slot of a run with no smaller remainder decides membership |
| `RingUpdate.InsertedLayout` | data_structure/source/filter.cpp:277-300 | moving a stretch of the ring up to the next vacancy one slot right and placing an entry keeps the layout invariant |
| `RingUpdate.InsertedContents` | data_structure/source/filter.cpp:277-300 | that move adds exactly the one pair |
| `RingUpdate.ShiftedRightMatches` | data_structure/source/filter.cpp:277-300 | the stored bits after the shift are those of the new layout |
| `RingUpdate.RemovedLayout` | data_structure/source/filter.cpp:408-445 | closing the gap over the rest of a cluster keeps the layout invariant, also around the whole ring of a full table |
| `RingUpdate.RemovedContents` | data_structure/source/filter.cpp:408-445 | it takes out exactly the one pair |
| `RingUpdate.RepairedMatches` | data_structure/source/filter.cpp:385-406 | after the repair of the slot that was filled, all stored bits are those of the new layout |
| `QuotientFilter.Quotient.constructor` | data_structure/source/filter.cpp:179-192 | a new filter is valid and empty |
| `QuotientFilter.Quotient.FindRunIndex` | data_structure/source/filter.cpp:462-486 | walking back to the cluster start and forward run by run finds where the quotient's run starts, or would start |
| `QuotientFilter.Quotient.MayContain` | data_structure/source/filter.cpp:317-343 | true exactly when the fingerprint is in the set |
| `QuotientFilter.Quotient.InsertAt` | data_structure/source/filter.cpp:277-300 | the loop performs the shift to the right |
| `QuotientFilter.Quotient.Insert` | data_structure/source/filter.cpp:215-275 | adds the fingerprint, is refused exactly when the table is full, changes nothing when it is there, and keeps the layout |
| `QuotientFilter.Quotient.RemoveAt` | data_structure/source/filter.cpp:408-445 | the loop slides the rest of the cluster left with the right flags |
| `QuotientFilter.Quotient.Remove` | data_structure/source/filter.cpp:345-406 | takes out exactly the fingerprint, is refused exactly for hashes with higher bits, and keeps the layout |
| `QuotientFilter.Quotient.Clear` | data_structure/source/filter.cpp:209-213 | leaves a valid empty filter |
| `QuotientRuns.Run` | data_structure/source/filter.cpp:209-445 | over any run of operations the filter answers and ends as a plain set does, and the counter is the size of the set |
| `QuotientRuns.SplitIs` | data_structure/source/filter.cpp:452-460 | the remainder of a hash is its low bits, the quotient those above them |
| `QuotientRuns.SameFingerprint` | data_structure/source/filter.cpp:452-460 | two hashes have one fingerprint exactly when they agree in as many low bits as quotient and remainder have together |
| `QuotientIterator.Start` | data_structure/source/filter.cpp:488-507 | the iterator stands on a cluster start and has yielded nothing |
| `QuotientIterator.Next` | data_structure/source/filter.cpp:514-545 | yields a stored fingerprint not yielded before, with its quotient rebuilt |
| `QuotientIterator.DoneIsAll` | data_structure/source/filter.cpp:509-512 | done exactly when everything stored has been yielded |
| `QuotientIterator.HashRoundTrip` | data_structure/source/filter.cpp:452-460 | splitting the rebuilt hash gives back quotient and remainder |
| `QuotientIterator.InsertFrom` | data_structure/source/filter.cpp:302-310 | adds what the other filter holds, all of it if it fits |
| `QuotientIterator.Merge` | data_structure/include/filter.hpp:305-316 | refused without effect unless all are compatible; the result is the union exactly when the union fits |
| `Matching.LeastOccurrenceUnique` | algorithm/source/match.cpp:22-303 | the specification has one answer, so that all matchers agree on every input |
| `Matching.Horspool` | algorithm/source/match.cpp:210-256 | returns the least occurrence or -1 for all 32-bit lengths, unless the index leaves 32 bits, which needs more than 2^32 bytes together and a text without the pattern |
| `Matching.Sunday` | algorithm/source/match.cpp:258-303 | returns the least occurrence or -1 for all 32-bit lengths, unless the index comes to 2^32 and the search starts again, which needs 2^32 - 1 bytes without the pattern |
| `BoyerMoore.FillGoodSuffixRuleTable` | algorithm/source/match.cpp:168-208 | the two passes leave, for each mismatch position, exactly the smallest compatible shift |
| `BoyerMoore.OccurrenceIsCompatible` | algorithm/source/match.cpp:118-153 | an occurrence further right is a compatible shift for the mismatch at hand |
| `BoyerMoore.ShiftIsSafe` | algorithm/source/match.cpp:118-153 | the larger of the two shifts skips no occurrence |
| `BoyerMoore.AlignmentSkip` | algorithm/source/match.cpp:118-153 | after a mismatch the alignment moves right, past no occurrence |
| `BoyerMoore.BM` | algorithm/source/match.cpp:118-153 | returns the least occurrence or -1 for all 32-bit lengths of the text, unless the index leaves 32 bits, which needs more than 2^32 bytes together and a text without the pattern |
| `RabinKarp.RollIsHash` | algorithm/source/match.cpp:22-69 | the rolling update with truncating remainder and sign fix gives the polynomial hash of the next window |
| `RabinKarp.Roll` | algorithm/source/match.cpp:22-69 | from the hash of a window it computes the hash of the next one, every intermediate value being a signed 64-bit one |
| `RabinKarp.RK` | algorithm/source/match.cpp:22-69 | returns the least occurrence or -1 |
| `AvlTree.Insert` | data_structure/source/tree.cpp:578-614 | keeps order, exact stored heights and balance, adds exactly the key, and raises the height by at most one |
| `AvlTree.RemoveNode` | data_structure/source/tree.cpp:479-535 | keeps order, exact stored heights and balance, takes out exactly the key, and lowers the height by at most one |
| `AvlTree.RebalanceKeeps` | data_structure/source/tree.cpp:391-452 | the rotations restore balance and keep order and keys |
| `AvlTree.StoredHeightIsReal` | data_structure/source/tree.cpp:347-350 | the stored height is the height |
| `AvlTree.HeightIsLogarithmic` | data_structure/source/tree.cpp:391-626 | a valid tree of height h has at least 2^(h/2) - 1 keys |
| `AvlTree.SizeIsFibonacci` | data_structure/source/tree.cpp:391-626 | a tree of height h has at least F(h + 2) - 1 keys |
| `AvlTree.Thinnest` | data_structure/source/tree.cpp:391-626 | and balance allows no more than that: there is a balanced tree of every height with just so many |
| `AvlTree.Run` | data_structure/source/tree.cpp:578-626 | every tree reached by insertions and removals is valid |
| `AvlNodes.InsertNode` | data_structure/source/tree.cpp:578-614 | the recursion on linked nodes computes the insertion and allocates only for a new key |
| `AvlNodes.RemoveFrom` | data_structure/source/tree.cpp:479-535 | the recursion on linked nodes computes the removal |
| `AvlNodes.AVLTree.Add` | data_structure/source/tree.cpp:699-710 | the tree stays valid and gains exactly the key |
| `AvlNodes.AVLTree.Delete` | data_structure/source/tree.cpp:619-629 | the tree stays valid and loses exactly the key |
| `AvlNodes.AVLTree.Find` | data_structure/source/tree.cpp:691-694 | the search finds a node exactly when the key is in the tree |
| `SplayTree.SplayKeepsInorder` | data_structure/source/tree.cpp:871-930 | splaying terminates and keeps the in-order sequence of keys |
| `SplayTree.SplayFinds` | data_structure/source/tree.cpp:871-930 | the key ends at the root if present, otherwise a neighbour of its place does |
| `SplayTree.SplayToGreatest` | data_structure/source/tree.cpp:953-975 | splaying the left part for the removed key leaves it without a right child |
| `SplayTree.InsertAddsAtRoot` | data_structure/source/tree.cpp:935-948 | an insertion adds exactly the key, in order, and brings it to the root |
| `SplayTree.RemoveTakesOut` | data_structure/source/tree.cpp:953-975 | a removal takes out exactly the key and keeps the order |
| `SplayCost.SplayParts` | data_structure/source/tree.cpp:871-930 | the loop with its two assembly trees builds what a recursion on the tree gives |
| `SplayCost.Pays` | data_structure/source/tree.cpp:881-922 | the rounds of the loop are paid for by the ranks of the nodes it passes, but for four times the rank of the tree; a step without rotation is paid by the step after it |
| `SplayCost.SplayPays` | data_structure/source/tree.cpp:871-930 | rounds plus twice the new potential are at most twice the old one plus six times the logarithm of the size |
| `SplayCost.WalkIsShort` | data_structure/source/tree.cpp:795-815 | a search looks at no more than two nodes for every round of the splay |
| `SplayCost.InsertNodeGains` | data_structure/source/tree.cpp:785-828 | a new leaf raises the potential by a logarithm at most |
| `SplayCost.DeletePays` | data_structure/source/tree.cpp:953-975 | the removal of a key that is there, with its two splays, is paid for but for a logarithm |
| `SplayCost.RunIsLogarithmic` | data_structure/source/tree.cpp:935-975 | over any run of insertions and removals, nodes looked at and rounds are at most logarithmic per operation on average, but for searches for keys that are to be removed and are not there |
| `SplayCost.MissesAreLinear` | data_structure/source/tree.cpp:953-958 | these are not: after n insertions in increasing order any number of removals of a lesser key look at all n nodes each time |
| `SplayNodes.SplayAt` | data_structure/source/tree.cpp:871-930 | the loop with its two assembly trees on linked nodes computes the splay, in the rounds counted |
| `SplayNodes.InsertNodeAt` | data_structure/source/tree.cpp:785-828 | the loop hangs the node at the leaf position, looking at the nodes counted |
| `SplayNodes.RemoveAt` | data_structure/source/tree.cpp:953-975 | the removal on linked nodes computes the removal on values, at the cost counted |
| `SplayNodes.SplayObject.Add` | data_structure/source/tree.cpp:1040-1051 | the tree stays ordered, gains exactly the key and has it at the root, on old nodes and at most a new one, at the cost counted |
| `SplayNodes.SplayObject.Delete` | data_structure/source/tree.cpp:1053-1064 | the tree stays ordered and loses exactly the key, on old nodes only, at the cost counted |
| `JsonRoundTrip.LoadUndoesPrinting` | utility/source/json.cpp:484-493 | loading gives back what either printer wrote, for any indentation by white space, exactly when it is not a bare number and, at any depth, all keys are in escaped form and all floating numbers are what their texts read as |
| `JsonRoundTrip.LoadNormalises` | utility/source/json.cpp:484-493 | in any case a bare number is refused, and otherwise it gives the value with every key replaced by the escaped form of what the key reads as, and every floating number by what its text reads as |
| `JsonRoundTrip.NormalIsEscaped` | utility/source/json.cpp:587-600 | what has been loaded from a printed value has only keys in escaped form |
| `JsonRoundTrip.ParsesBack` | utility/source/json.cpp:378-404 | the printed form of a value, found behind white space in any text, is parsed and used up exactly |
| `JsonRoundTrip.StringBack` | utility/source/json.cpp:173-238 | reading an escaped string gives the string |
| `JsonRoundTrip.BareNumberThrows` | utility/source/json.cpp:282-332 | a bare integer is refused |
| `JsonRoundTrip.FloatBack` | utility/source/json.cpp:244-332 | the text of a floating number, with or without an exponent, is read the same in front of whatever ends a number |
| `JsonRoundTrip.FloatAtEnd` | utility/source/json.cpp:263-318 | at the end of the text it is refused, or its last digit is left over |
| `JsonRoundTrip.NormalIff` | utility/source/json.cpp:406-424 | a value comes back as it is exactly when its keys are in escaped form and its floating numbers are what their texts read as |
| `JsonUnfinished.NeverIff` | utility/source/json.cpp:71-159 | the parser never returns exactly on texts that end in an opening bracket where an array could stand: where the text before it, an array and what finishes the text then, computed from it, load |
| `JsonUnfinished.SameNext` | utility/source/json.cpp:378-404 | up to that bracket the parser does the same on the unfinished text and on its continuation |
| `JsonUnfinished.NextCloses` | utility/source/json.cpp:378-404 | every unfinished value is finished by the text that a scan for unfinished items and fields gives, whatever follows |
| `JsonUnfinished.ClosingSuffices` | utility/source/json.cpp:484-493 | if any continuation by an array loads, that one does |
| `JsonUnfinished.ClosingReturns` | utility/source/json.cpp:484-493 | the parser returns on the text that decides |
| `JsonTermination.DivergesIff` | utility/source/json.cpp:88-159 | the outcome that stands for not returning is the one that no bound on the depth of the recursion lets return |
| `JsonTermination.Endless` | utility/source/json.cpp:71-82 | behind a last opening bracket white space is skipped back onto it, so that every bound is used up |
| `JsonTermination.ReturnsWithin` | utility/source/json.cpp:378-404 | otherwise a depth linear in the length of the text is enough, and gives the outcome |
| `JsonTermination.LoadReturns` | utility/source/json.cpp:71-82 | the parser returns on every text that does not end in an opening bracket |
| `JsonCut.UnfinishedArray` | utility/source/json.cpp:131-159 | behind any items of an array, an opening bracket at the end keeps the parser forever |
| `JsonCut.UnfinishedObject` | utility/source/json.cpp:88-125 | likewise behind any fields of an object and another key |
| `JsonCut.BracketCountedTwice` | utility/source/json.cpp:71-82 | a minified text without its last character loads as the value printed exactly when the whole text does and it is an array that ends in an array or an object that ends in an object |
| `JsonCut.CutLoads` | utility/source/json.cpp:71-159 | and otherwise it is refused, or, for an empty array or object, never left |
| `JsonReader.ConsumeWhitespace` | utility/source/json.cpp:71-82 | the loop and its step back at the end compute the offset skipped to |
| `JsonReader.ParseString` | utility/source/json.cpp:173-238 | the loop reads the string, escapes included, or fails |
| `JsonReader.ReadNumber` | utility/source/json.cpp:244-332 | the loops read the integer, or the parts of a floating number, or fail |
| `JsonReader.ReadArray` | utility/source/json.cpp:131-159 | the loop reads the items |
| `JsonReader.ReadObject` | utility/source/json.cpp:88-125 | the loop reads the fields into key order, as the parsing function says, whose outcome `JsonLanguage.LoadIff` describes |
| `JsonReader.LoadText` | utility/source/json.cpp:484-493 | a value exactly for the texts of the grammar that spell it, but for closing brackets missing at the end, and no return exactly for an array begun and not finished; all other texts throw |
| `JsonObjects.PutIsUpdate` | utility/source/json.cpp:109 | assigning a field updates the map from keys to values, wherever the key belongs in the order, and keeps the order |
| `JsonObjects.LessIff` | utility/source/json.cpp:109 | the key order: at the first place where two keys differ the lesser has the lesser character, or ends |
| `JsonObjects.OneOrder` | utility/source/json.cpp:109 | in key order there is one list of fields for a map |
| `JsonGrammar.Ordered` | utility/source/json.cpp:88-125 | what fields read in any order make: the one list in key order with the map of the assignments |
| `JsonGrammar.LastRead` | utility/source/json.cpp:109 | that map holds for each key the value last read for it |
| `JsonSpelling.PiecesParse` | utility/source/json.cpp:173-238 | every spelling of a string, by characters, escapes and character codes, is read as what it stands for, escape by escape |
| `JsonSpelling.PiecesOf` | utility/source/json.cpp:173-238 | every string that is read is so spelled |
| `JsonSpelling.PlainNumberIff` | utility/source/json.cpp:282-332 | a run of digits, signs and points is a number exactly when the conversion accepts it, a floating one exactly with a point in it |
| `JsonSpelling.ExponentNumberIff` | utility/source/json.cpp:244-332 | with an exponent it is a floating number exactly when the conversions accept both parts |
| `JsonSpelling.NoOtherNumber` | utility/source/json.cpp:244-332 | there are no other numbers |
| `JsonSpelling.StolReads` | utility/source/json.cpp:316-326 | the conversion takes the digits in front, behind a minus or not, within 64 bits, and ignores what follows |
| `JsonSpelling.StolFails` | utility/source/json.cpp:316-326 | it fails where no digit stands there |
| `JsonAccepts.ItemRound` | utility/source/json.cpp:131-159 | behind an item a comma goes on, a bracket ends the array, and any other character is refused |
| `JsonAccepts.FieldRound` | utility/source/json.cpp:111-123 | behind a field a comma goes on, a brace ends the object, and any other character is refused |
| `JsonAccepts.ColonRound` | utility/source/json.cpp:100-108 | behind a key any character but a colon is refused |
| `JsonAccepts.GrammarLoads` | utility/source/json.cpp:88-159 | every text of the grammar but a bare number loads as what it stands for: any white space between tokens, any spelling of strings, fields in any key order, any value as a key |
| `JsonLanguage.Sound` | utility/source/json.cpp:378-404 | whatever is read as a value, anywhere in a text, is spelled by the grammar, but for closing brackets missing at the end of the text |
| `JsonLanguage.ParsesCut` | utility/source/json.cpp:71-82 | a text of the grammar that ends in several closing brackets of a kind is read the same when all but one of them are missing |
| `JsonLanguage.LoadIff` | utility/source/json.cpp:484-493 | for every text and every value: the text loads as the value exactly when it spells it, but for missing brackets like its last |
| `JsonPrinter.JsonEscape` | utility/source/json.cpp:32-66 | the loop computes the escaped string |
| `JsonPrinter.Dump` | utility/source/json.cpp:715-766 | the loops write the pretty form |
| `JsonPrinter.DumpMinified` | utility/source/json.cpp:768-809 | the loops write the minified form |
| `JsonLayout.PrettyIsLines` | utility/source/json.cpp:715-766 | the pretty form is the lines of the value: each item and each field on a line of its own, a tab for each level in front, the closing bracket one level less on its own line |
| `JsonLayout.MinifiedIsCompact` | utility/source/json.cpp:768-809 | the minified form is the tokens side by side |
| `JsonLayout.SevenEscapes` | utility/source/json.cpp:32-66 | just seven characters are escaped, each by a backslash and its own character |
| `JsonLayout.NoLeadingZero` | utility/source/json.cpp:762-762 | no integer but zero is printed with a zero in front |
| `LruCache.LRU.Insert` | data_structure/include/cache.hpp:912-943 | the spliced list, its end marker and the key map act as the bounded list does; a full cache gives up the last entry |
| `LruCache.LRU.DoErase` | data_structure/include/cache.hpp:955-966 | one entry goes, the others keep their order |
| `LruCache.LRU.DoAccess` | data_structure/include/cache.hpp:985-988 | the entry comes to the front |
| `LruCache.LRU.Find` | data_structure/include/cache.hpp:969-982 | answers as the list; only a find that does not peek moves the entry |
| `FifoCache.FIFO.Insert` | data_structure/include/cache.hpp:284-313 | an update keeps the place, a new key takes a blank slot or that of the oldest entry |
| `FifoCache.FIFO.DoErase` | data_structure/include/cache.hpp:323-337 | one entry goes, its slot becomes the first blank one |
| `FifoCache.FIFO.Find` | data_structure/include/cache.hpp:340-348 | answers as the list and changes nothing |
| `LfuCache.LFU.Insert` | data_structure/include/cache.hpp:588-626 | slots, open list, multimap and key map act as the list ordered by count; a full cache gives up its first entry |
| `LfuCache.LFU.DoErase` | data_structure/include/cache.hpp:629-641 | one entry goes from all four structures |
| `LfuCache.LFU.DoAccess` | data_structure/include/cache.hpp:675-680 | the count rises by one and the entry moves behind all of that count |
| `LfuCache.LFU.FindWithRefcount` | data_structure/include/cache.hpp:644-672 | answers value and count as the list does |
| `CacheKeys.KeptStep` | data_structure/include/cache.hpp:297-348 | one operation more: an insertion loses no key unless the cache is full, and then just the one given up; an erasure takes out just its key, a search none |
| `CacheKeys.OneGivenUp` | data_structure/include/cache.hpp:925-997 | just one key is given up: the one touched least recently, the oldest, or the one used least, by the policy |
| `CachePolicies.LruOrder` | data_structure/include/cache.hpp:925-997 | after any run the list holds just the keys that are there by the operations alone, each once with the value inserted last, at most as many as the capacity, in the order of their last touch |
| `CachePolicies.FifoOrder` | data_structure/include/cache.hpp:297-348 | after any run the list holds just the keys that are there by the operations alone, with the values inserted last, in the order of their arrival, whatever was updated in between |
| `CacheFrequency.StepAgrees` | data_structure/include/cache.hpp:601-689 | one step on the list by count and on a list by last use keeps them in agreement |
| `CacheFrequency.VictimFirst` | data_structure/include/cache.hpp:683-689 | the entry given up has the lowest count and reached it before all others with that count |
| `CacheFrequency.LfuOrder` | data_structure/include/cache.hpp:601-689 | after any run the order by count is the order by last use sorted by count |
| `CacheFrequency.RefKeeps` | data_structure/include/cache.hpp:601-689 | the list by last use holds just the keys that are there by the operations alone, each with the number of its uses since it came in |
| `CacheFrequency.LfuHolds` | data_structure/include/cache.hpp:601-689 | after any run the list by count tells of each key just whether it is there, the value inserted last and the number of its uses |
| `CacheFrequency.LfuGivesUp` | data_structure/include/cache.hpp:683-689 | what stands first is the key used least, among equals the one touched least recently |
| `CacheRuns.RunLru` | data_structure/include/cache.hpp:912-997 | every answer of any run is what the operations before it say of the keys touched last and their values, without any list |
| `CacheRuns.RunFifo` | data_structure/include/cache.hpp:284-348 | every answer of any run is what the operations before it say of the keys that came in last and their values, without any list |
| `CacheRuns.RunLfu` | data_structure/include/cache.hpp:588-689 | every answer of any run is what the operations before it say of the keys used most, their values and the numbers of their uses, without any list |
| `ReadWriteLock.StepKeeps` | utility/source/common.cpp:245-279 | every step of every thread keeps owners, counters, exclusion and pending notifications consistent |
| `ReadWriteLock.MutualExclusion` | utility/source/common.cpp:245-279 | in every interleaving a writer is in alone |
| `ReadWriteLock.ReadersDoNotGrow` | utility/source/common.cpp:263-271 | while a writer has the shared mutex, waiting or not, no step raises the reader count |
| `ReadWriteLock.NeverStuck` | utility/source/common.cpp:245-279 | with every holder gone, all threads are idle or some thread can move without a spurious wakeup |
| `ReadWriteLock.LetInIff` | utility/source/common.cpp:245-271 | in every reachable state a thread that looks at the counters is let in exactly when no writer is in, and for writing no reader either; otherwise it sleeps |
| `ReadWriteLock.WaitsExactly` | utility/source/common.cpp:245-279 | before that it waits exactly for the shared mutex, which readers share, and for the plain mutex |
| `ReadWriteLock.ReadersShare` | utility/source/common.cpp:245-253 | for every n there is a run after which all n threads are in for reading at once |
| `ReadWriteLock.WriterEnters` | utility/source/common.cpp:263-271 | and one after which a thread is in for writing |
| `ReadWriteLock.NobodyWaitsForever` | utility/source/common.cpp:245-279 | with nobody entering anew and no wakeup without a reason every run of any scheduling ends within a bound, with all threads outside |
| `ThreadPool.StepKeeps` | utility/source/thread.cpp:27-83 | every step of workers, clients and destructor keeps the invariant |
| `ThreadPool.FirstInFirstOut` | utility/source/thread.cpp:34-50 | the tasks taken, followed by the queue, are the accepted tasks in order |
| `ThreadPool.NothingLost` | utility/source/thread.cpp:27-64 | queued, running and done tasks add up to the accepted ones |
| `ThreadPool.NothingTwice` | utility/source/thread.cpp:27-64 | a running task is not done yet and no other worker has it |
| `ThreadPool.ReleaseIsFinal` | utility/include/thread.hpp:76-91 | once released, the queue is empty and no step accepts a task |
| `ThreadPool.AllDoneAfterJoin` | utility/source/thread.cpp:66-83 | when the destructor has joined, exactly the accepted tasks are done |
| `ThreadPool.NeverStuck` | utility/source/thread.cpp:27-83 | with a worker, the pool rests only when nothing is queued or running and a destructor that started has finished |
| `ThreadPool.OfferAnswered` | utility/include/thread.hpp:83-91 | in every reachable state an offer is refused exactly from the release on; any other goes to the end of the queue, however long that is |
| `ThreadPool.WorkerDecides` | utility/source/thread.cpp:34-50 | a worker that looks at the queue takes its first task if there is one, leaves if there is none and the pool is released, and sleeps otherwise |
| `ThreadPool.MutexIff` | utility/source/thread.cpp:34-50 | whoever wants the mutex gets it exactly when nobody is at work under it |
| `ThreadPool.AcceptsAnyNumber` | utility/include/thread.hpp:83-91 | for every n some run accepts n tasks before any worker moves |
| `ThreadPool.WorkTogether` | utility/source/thread.cpp:27-64 | for every n there is a run after which all n workers are at work, each on a task of its own |
| `ThreadPool.EveryTaskGetsDone` | utility/source/thread.cpp:27-83 | when no more is offered, every run of any scheduling ends within a bound, and when nothing can move any more every accepted task is done |
| `GraphTraversal.Bfs` | data_structure/source/graph.cpp:348-396 | visits exactly the reachable vertices, each once, with non-decreasing exact distances, by who finds them first and then by their data; no array overflows |
| `GraphTraversal.Dfs` | data_structure/source/graph.cpp:298-346 | visits exactly the reachable vertices, each once, and depth first: while a vertex has a neighbour yet to come, only vertices that hang on those visited since are visited, and direct children come by their data |
| `GraphTraversal.DfsRecursive` | data_structure/source/graph.cpp:710-737 | adds only vertices reachable from the given one, depth first, and all neighbours of those it adds |
| `GraphTraversal.CollectNeighbors` | data_structure/source/graph.cpp:325-337 | the neighbour array holds all neighbours still needed and does not overflow |
| `GraphTraversal.SortNeighbors` | data_structure/source/graph.cpp:398-411 | the array is sorted by data and holds the same vertices |
| `GraphTraversal.NextLevel` | data_structure/source/graph.cpp:739-783 | when the front reaches a new distance, everything at that distance is in the queue |
| `GraphPaths.ClosedHoldsReachable` | data_structure/source/graph.cpp:315-396 | a set closed under neighbours holds all that can be reached |
| `GraphTraversal.BfsFrom` | data_structure/source/graph.cpp:348-396 | from the vertex with the given data it visits what can be reached, by distance and in breadth-first order, and nothing if there is no such vertex |
| `GraphTraversal.DfsFrom` | data_structure/source/graph.cpp:298-313 | from the vertex with the given data it visits what can be reached, depth first with children by their data, and nothing if there is no such vertex |
| `TraversalOrder.BreadthFirstUnique` | data_structure/source/graph.cpp:348-396 | with distinct data, what is said of a breadth-first traversal determines the order of visits |
| `TraversalOrder.DepthFirstUnique` | data_structure/source/graph.cpp:298-346 | and so does what is said of a depth-first traversal |
| `TraversalOrder.AllAttached` | data_structure/source/graph.cpp:315-346 | in a complete depth-first order every vertex but the first is a neighbour of one before it |
| `GraphTraversal.BfsOn` | data_structure/source/graph.cpp:348-396 | the same on the linked nodes of an undirected graph |
| `GraphTraversal.DfsOn` | data_structure/source/graph.cpp:298-346 | the same on the linked nodes of an undirected graph |
| `GraphTraversal.BfsOnDirected` | data_structure/source/graph.cpp:739-783 | the same on the linked nodes of a directed graph |
| `GraphTraversal.DfsOnDirected` | data_structure/source/graph.cpp:693-737 | the same on the linked nodes of a directed graph |
| `GraphNodes.AdjacencyIsOk` | data_structure/source/graph.cpp:162-200 | the two-list edge nodes stand for a symmetric graph without parallel edges, as the traversals need it |
| `GraphNodes.EdgeIsJoined` | data_structure/source/graph.cpp:162-200 | an edge of that graph is an edge node |
| `GraphNodes.AddedLaid` | data_structure/source/graph.cpp:192-197 | a new node at the front of the lists of both ends, also of a self-loop, keeps all lists intact |
| `GraphNodes.Bypassed` | data_structure/source/graph.cpp:61-89 | leading the link before a node past it takes just that node off the list |
| `GraphNodes.OtherChain` | data_structure/source/graph.cpp:61-89 | that leaves the list of every other vertex as it is, although the same node is on it |
| `GraphNodes.UndirectedGraph.AddVertex` | data_structure/source/graph.cpp:144-155 | refused exactly when the graph is full or the vertex is there; the graph that the traversals see gains a vertex without neighbours |
| `GraphNodes.UndirectedGraph.FindEdge` | data_structure/source/graph.cpp:176-184 | walking the list of one vertex finds the edge exactly when there is one |
| `GraphNodes.UndirectedGraph.AddEdge` | data_structure/source/graph.cpp:162-200 | links one new node into two lists exactly when both vertices exist and the edge is not there; adds just that edge, among the nodes and in the graph that the traversals see |
| `GraphNodes.UndirectedGraph.RemoveEdgeFromList` | data_structure/source/graph.cpp:61-89 | the loop takes the node off the list of one end and leaves the other lists alone |
| `GraphNodes.UndirectedGraph.DeleteEdge` | data_structure/source/graph.cpp:260-296 | takes out exactly that edge, among the nodes and in the graph that the traversals see, refused exactly when there is none |
| `GraphNodes.UndirectedGraph.NeighboursOf` | data_structure/source/graph.cpp:328-337 | walking the links of a vertex gives its neighbours in the graph the traversals run on |
| `GraphArcs.DirectedGraph.AddVertex` | data_structure/source/graph.cpp:550-562 | refused exactly when the graph is full or the vertex is there; the graph that the traversals see gains a vertex without neighbours |
| `GraphArcs.DirectedGraph.AddArc` | data_structure/source/graph.cpp:569-606 | links a new node in front of the list of its tail exactly when both vertices exist and the arc is not there; adds just that arc, among the nodes and in the graph that the traversals see |
| `GraphArcs.DirectedGraph.FindArc` | data_structure/source/graph.cpp:672-683 | walking the list of the tail finds the arc exactly when there is one, with the node before it |
| `GraphArcs.DirectedGraph.DeleteArc` | data_structure/source/graph.cpp:658-691 | takes out exactly that arc, among the nodes and in the graph that the traversals see, refused exactly when there is none |
| `GraphArcs.TakenLaid` | data_structure/source/graph.cpp:672-691 | leading the link past a node takes just that arc off and keeps all lists intact |
| `GraphArcs.EdgeIsJoined` | data_structure/source/graph.cpp:569-606 | an arc of the graph that the traversals see is an arc node |
| `GraphArcs.AdjacencyIsOk` | data_structure/source/graph.cpp:569-606 | the arc nodes stand for a graph without parallel arcs, as the traversals need it |
| `MergeableHeaps.MergeKeeps` | data_structure/source/heap.cpp:246-285 | merging keeps heap order, the left-heavy rule and exact null path lengths, and puts the keys together |
| `MergeableHeaps.NullPathIsLogarithmic` | data_structure/source/heap.cpp:246-285 | a null path length n takes at least 2^(n+1) - 1 nodes |
| `MergeableHeaps.MergeIsShallow` | data_structure/source/heap.cpp:246-285 | the recursion is no deeper than the two right spines, which are logarithmic |
| `MergeableHeaps.RemoveKeeps` | data_structure/source/heap.cpp:358-370 | removing the root takes out one least key and keeps the heap |
| `MergeableHeaps.DrainSorts` | data_structure/source/heap.cpp:358-370 | removing the minimum again and again gives all keys in order |
| `MergeableHeaps.SkewMergeKeeps` | data_structure/source/heap.cpp:430-456 | merging keeps heap order and puts the keys together |
| `MergeableHeaps.SkewDrainSorts` | data_structure/source/heap.cpp:521-533 | removing the minimum again and again gives all keys in order |
| `MergeableHeaps.SkewIsAmortised` | data_structure/source/heap.cpp:430-456 | the calls of a merge are paid for by right-heavy nodes that stop being so, but for the light nodes on the two right spines |
| `MergeableHeaps.LightIsLogarithmic` | data_structure/source/heap.cpp:430-456 | these are logarithmic in the size |
| `MergeableHeaps.SkewRunIsLogarithmic` | data_structure/source/heap.cpp:496-533 | so over any run of insertions and removals the calls are at most logarithmic per operation on average |
| `HeapNodes.MergeNode` | data_structure/source/heap.cpp:246-285 | the recursion on linked nodes computes the merge, in place |
| `HeapNodes.SkewMergeNode` | data_structure/source/heap.cpp:430-456 | the recursion on linked nodes computes the merge, in place |
| `HeapNodes.LeftistHeap.Insert` | data_structure/source/heap.cpp:333-353 | the heap stays valid and gains the key |
| `HeapNodes.LeftistHeap.Remove` | data_structure/source/heap.cpp:358-370 | the heap stays valid and loses one least key |
| `HeapNodes.LeftistHeap.MergeFrom` | data_structure/source/heap.cpp:375-384 | the keys of both heaps are in one, the other is empty; a heap merged with itself is empty afterwards |
| `HeapNodes.SkewHeap.MergeFrom` | data_structure/source/heap.cpp:546-555 | the keys of both heaps are in one, the other is empty; a heap merged with itself is empty afterwards |
| `HeapNodes.MergeShared` | data_structure/source/heap.cpp:246-285 | the recursion ends and leaves a node also when its two sides share nodes |
| `HeapNodes.LeftistHeap.GetMinimum` | data_structure/source/heap.cpp:290-293 | a least key, if there is any |
| `Notation.PostfixIsPostOrder` | algorithm/source/notation.cpp:48-94 | a sum of products of powers of names and groups, equals grouped to the left, is converted to the post-order walk |
| `Notation.PrefixIsPreOrder` | algorithm/source/notation.cpp:22-46 | the same grouped to the right is converted to the pre-order walk |
| `Notation.FullGivesBoth` | algorithm/source/notation.cpp:22-94 | a fully parenthesised rendering with the five operators gives both |
| `Notation.LeftGrammar` | algorithm/source/notation.cpp:91-109 | the priorities describe just that grammar, in which each operator is named |
| `Notation.RightGrammar` | algorithm/source/notation.cpp:91-109 | and the one grouped to the right |
| `Notation.PostfixKeeps` | algorithm/source/notation.cpp:48-89 | for any text the names keep their order, every operator comes as often as before, and of the parentheses just the opening ones never closed are left |
| `Notation.PrefixKeeps` | algorithm/source/notation.cpp:22-41 | likewise for prefix, with the closing ones never opened, which come out as opening ones |
| `Notation.SafeIffClosed` | algorithm/source/notation.cpp:48-89 | for every text, the empty stack is read exactly when a parenthesis closes that is not open, where an operator other than the five undoes all that are open |
| `Notation.PrefixSafeIffClosed` | algorithm/source/notation.cpp:22-41 | the same for prefix, with the text read from its end |
| `Notation.ClosedIsMatching` | algorithm/source/notation.cpp:63-71 | without such operators that means that no beginning of the text closes more parentheses than it opens |
| `Notation.UnknownOperatorReadsEmptyStack` | algorithm/source/notation.cpp:72-80 | any such operator, a space included, alone between parentheses makes both conversions read the empty stack |
| `Notation.InfixToPostfix` | algorithm/source/notation.cpp:48-89 | the loops over characters and stack compute the conversion |
| `Notation.ConvertToPrefix` | algorithm/source/notation.cpp:22-41 | reversing, swapping parentheses, converting and reversing compute the prefix form |
| `Base64.DecodeUndoesEncode` | utility/source/common.cpp:84-177 | decoding undoes encoding for every byte string |
| `Base64.EncodedLength` | utility/source/common.cpp:84-133 | four letters for every three bytes begun |
| `Base64.LettersInOrder` | utility/source/common.cpp:25-28 | the 64 letters are those of table 1 of RFC 4648 |
| `Base64.EncodesGroups` | utility/source/common.cpp:84-133 | group by group the letters are those of six bits each, the last group padded, as section 4 of RFC 4648 has it |
| `Base64.GroupDecodes` | utility/source/common.cpp:138-177 | four letters decode to the three bytes of their bits |
| `Base64.DecodedLength` | utility/source/common.cpp:138-177 | for every text that is decoded, one byte comes out for each letter that is not the first of four |
| `Base64.PaddingCompletes` | utility/source/common.cpp:119-132 | padding stands exactly where the last group is incomplete |
| `Base64.Fills` | utility/source/common.cpp:91-95 | each byte is added into bits that are all zero, and the stream stays below 24 bits |
| `Base64.DecoderDisjointIff` | utility/source/common.cpp:138-177 | for every text, the decoder adds each letter into bits that are all zero and stays below 24 bits exactly when no letter overlaps one that is still in the stream |
| `Base64.DecoderIsDisjoint` | utility/source/common.cpp:138-177 | as long as no letter stands behind padding, the decoder adds each letter into bits that are all zero and stays below 24 bits |
| `Base64.EncodedIsDisjoint` | utility/source/common.cpp:84-177 | so it does on everything the encoder writes |
| `Base64.StrayPaddingOverlaps` | utility/source/common.cpp:146-174 | behind stray padding the stream is not reset, and a letter can fall on bits in use and beyond the 24th |
| `Base64.DecodesLetters` | utility/source/common.cpp:138-177 | decoding fails exactly on a character that is neither a letter nor padding |
| `Base64.Base64Encode` | utility/source/common.cpp:84-133 | the loop computes the encoding |
| `Base64.Base64Decode` | utility/source/common.cpp:138-177 | the loop computes the decoding |
| `EratosthenesSieve.Eratosthenes` | numeric/source/prime.cpp:19-39 | with squares and sums taken in 32 bits it returns the primes up to the limit in order exactly for limits below 203897, for all limits up to 2^32 - 3; from there on it loses the prime 203897, to which the square of 92683 wraps around, or, from 2^31 on, that one |
| `EratosthenesSieve.InnerEndsIff` | numeric/source/prime.cpp:31-34 | the loop over the multiples of an odd number ends for every limit but 2^32 - 1, that over the multiples of two exactly for limits below 2^32 - 2 |
| `EratosthenesSieve.OddReaches` | numeric/source/prime.cpp:31-34 | the steps of an odd number, wrapping around, come to the greatest word |
| `EratosthenesSieve.RoundIsRight` | numeric/source/prime.cpp:27-35 | below that number every round crosses out just what it should of the numbers still to come, also when the square wraps around |
| `EulerSieve.Euler` | numeric/source/prime.cpp:41-65 | as long as no product wraps around, it returns the primes up to the limit in order, and each composite is crossed out exactly once |
| `EulerSieve.NoWrapIff` | numeric/source/prime.cpp:54-62 | no product that the loop forms wraps around exactly for limits of 31 bits |
| `EulerSieve.Strikes` | numeric/source/prime.cpp:54-62 | multiplying by the next prime crosses out just the product, which has that prime as its least factor, for the first time |
| `Primes.PrimesAre` | numeric/source/prime.cpp:19-65 | the specification lists exactly the primes, increasing |
| `EratosthenesSieve.BothSieves` | numeric/source/prime.cpp:19-65 | both sieves give the same exactly for limits below 203897 |

## Left out

- BoyerMoore.BM, Matching.Horspool: do not say what the source does once the index has wrapped around behind the last
  alignment; BM does not cover patterns longer than its 256-entry table.
- EratosthenesSieve.Eratosthenes, EratosthenesSieve.BothSieves: do not cover limit 0, for which the source writes behind its
  array; BothSieves covers limits of 31 bits, as the Euler sieve does.
- EulerSieve.Euler: does not cover limits of 32 bits, where products wrap around.
- JsonRoundTrip.LoadUndoesPrinting, JsonRoundTrip.LoadNormalises, JsonCut.CutLoads: do not cover object keys with a bare quote
  or an unfinished escape in them, whose printed form ends the key early or late, nor infinities and other floating numbers
  whose text cannot be read.
- Quotient filter: the MurmurHash of keys, null keys, and the Bloom filter with its floating-point sizing; the size that the
  source computes in bytes is used, as there, as a number of words.
- `kmp`: its failure table starts from entries that are still zero, so that it misses occurrences; it is not modelled.
- Trees and heaps: keys are integers under their own order instead of opaque addresses under a comparison function; freed
  nodes are simply no longer linked; allocation failure, null arguments and `destroy` are not modelled. Bodies of the source
  are divided over several methods; the order of the field updates is kept.
- JSON: conversions between types, iterators and wrappers.
- Caches: the range operations (loops over the single ones), load factors, and capacity zero, for which the source has no
  meaning.
- Concurrency: results handed back through futures, thread names, tasks that throw, memory orders weaker than the locks
  give, and callers that unlock what they do not hold.
- Graphs: `deleteVertex` and the edge counters; the traversals run on the neighbour lists that the edge nodes stand for.
- Base64: bytes are numbers below 256 rather than signed characters.
- The sorting and searching templates, the numeric and optimisation code, sockets, files, console, logging, shared memory and
  the other modules of the repository.
