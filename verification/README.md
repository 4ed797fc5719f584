# Verified models of sweet.hpp

sweet.hpp is a collection of C++ headers together with `recde`, a generator of recursive-descent parsers.
This project models the algorithms and protocols at the core of that repository in Dafny and proves what
they are for.

- **The parser generator** (`Names`, `Trie`, `TrieHeap`, `Grammar`, `FirstSets`, `Code`, `Generator`, `Parser`,
  `Soundness`, `Completeness`, `Faithfulness`, `Stopping`, `TokenSoundness`, `Recognition`, `Driver`).  The FIRST
  sets are computed by the same iteration over the multimap; the alternatives of a rule go into a heap trie;
  `walkTrie` appends text, error entries and store names while it walks that trie.  The text is a sequence of lines
  that is shown to read back as one program over a small statement language (`if`/`else if`, consume, call,
  return, throw) with a token-stream meaning.  Against derivability in the grammar itself the program never runs
  off its text, explains each throw by the way it has read and the trie node where it stopped, and stops on every
  input exactly when no token leads around a cycle of calls.  On grammars where one token of look-ahead decides,
  whatever it consumes is derived exactly when every rule that is used without being called derives alone each
  token it can begin with; and it accepts just what is derived exactly when such rules derive nothing else.
- **128-bit integers** (`Int128`, `Int128Division`, `Int128Print`).  Words wrap as on the machine.  Every
  operation is compared with the integers: sums, products with all their carries, the doubling and halving
  division, remainders, powers, and the decimal text.
- **The asynchronous logger** (`Logger`).  Producers, the thread that ends the logger and the writer are state
  machines that interleave on the mutexes, the semaphore and its condition variable.
- **Combinations, parallel algorithms, cache, vector and flat map, allocators, Base64** (`Combinations`,
  `Parallel`, `Cache`, `Fector`, `Fap`, `Allocators`, `FallbackDeque`, `Base64`).

Where the source changes something in place, the model is a class or a method over arrays, and its contract ties
the new state to a function of the old one; the promises are then proved about that function.

Where a promise does not hold on all inputs, the model keeps the code as it is, gives the input that shows it,
and states exactly when it holds:

- a rule used without a store name is consumed as one token; where one token of look-ahead decides, the parser
  consumes only what is derived if and only if such rules derive alone each token they can begin with
  (`TokenSoundness.SoundExactly`, `TokenSoundness.DecidesExactly`, `Driver.UnnamedUseAcceptsTooMuch`,
  `Driver.HarmlessUse`);
- a child is lost when a later one of the same alternative is stored under its name; the AST has all children if
  and only if those under one name are equal (`Recognition.AstMeaning`, `Recognition.ShadowedChild`);
- `mapReduce` with an output iterator that writes position by position loses items if and only if two jobs have
  some to deliver (`Parallel.PlacedResult`);
- a left-recursive rule runs for ever on a token that leads back to it, and every call stops if and only if there
  is no such cycle (`Stopping.StopsExactly`, `Stopping.LeftRecursionDiverges`);
- `recde`'s constructor lists and return arguments differ when a stored symbol is neither token nor rule
  (`Recognition.ConstructorMatchesReturn`, `Recognition.StrayArgument`);
- division, remainder and text at -2^127 (`Int128Division.QuotientExact`, `Int128Division.ModMeaning`,
  `Int128Division.MinDivisorDiverges`, `Int128Print.TextExact`);
- parallel `find_if` misses a match behind the covered prefix (`Parallel.FindIfExactly`, `Parallel.Missed`);
- a cache insertion evicts one entry only (`Caches.OneEvictionEnough`, `Caches.MixedSizesOverBudget`) and breaks
  the agreement of list and index when its key is already there (`Caches.DistinctStep`, `Caches.InsertedTwice`);
- `Fap::find` answers with the next larger pair for an absent key (`Faps.FindRight`, `Faps.FindAbsent`);
- a block can be given back to the wrong part of a `FallbackAllocator` whose regions touch
  (`Allocators.SecondRecognised`, `Allocators.AdjacentMisroutes`), and giving back an empty block can throw
  (`Allocators.FallbackAllocator.Deallocate`, `Allocators.EmptyBlockThrows`);
- encoding a decoded text gives it back exactly when it is canonical (`Base64.EncodeDecode`).

`dafny verify dfyconfig.toml` checks everything.

## Model

| member | source | states |
|---|---|---|
| Names.LessTrichotomy | recde/rulepart.cpp:12-13 | two parts that the key order cannot tell apart have the same name, so merging is by name only |
| Names.LessMeaning | recde/rulepart.cpp:12-13 | one name is less than another where they first differ by a smaller character, or where it ends first |
| Tries.InsertSorted | trie.hpp:44-62 | insertion keeps the keys of every entry strictly increasing |
| Tries.InsertLive | trie.hpp:44-62 | no insertion leaves a branch that ends without a value |
| Tries.InsertAt | trie.hpp:44-62 | along every path: exactly the prefixes of the inserted sequence become present, the first value stored at an end stays, and so does the first key of each step |
| Tries.BuildAt | recde/recdec.cpp:649-657 | the trie of a rule has exactly the prefixes of its alternatives; each end carries the end name of the first alternative with these symbols, each key the part as the first alternative with that prefix writes it |
| Tries.BuildShape | recde/recdec.cpp:649-657 | the trie of a rule is sorted and live, its root has a child and no value |
| TrieHeap.AddAtEffect | trie.hpp:48-51 | adding one entry makes one path present and changes nothing at any other path |
| TrieHeap.InsertPresent | trie.hpp:55-61 | once the path exists, an insertion changes the value at its end at most |
| TrieHeap.FindLink | trie.hpp:48 | the position of the key with that name, or the end exactly when there is none |
| TrieHeap.PrefixTrie.Insert | trie.hpp:44-62 | the pointer walk over heap entries carries out the insertion on values, and reports false exactly when a value was there already |
| Grammars.StartsStep | recde/recdec.cpp:33-42 | a terminal that starts a leading symbol starts the rule |
| Grammars.TrieOfMultimap | recde/recdec.cpp:649-657 | in terms of the pairs of the multimap: the value at a path is the end name of the pair of least index with these symbols, a key is the part as the pair of least index through it writes it, and no other value or key is there |
| FirstSets.Visit | recde/recdec.cpp:19-59 | one alternative: nothing unjustified enters the table, nothing leaves it, its own leading symbol is covered unless the round is marked as changed |
| FirstSets.ClosedIsComplete | recde/recdec.cpp:15-61 | a table that no alternative can extend holds the terminal at the end of every chain of leading symbols |
| FirstSets.ComputeFirstSet | recde/recdec.cpp:15-61 | for every order of the multimap the iteration stops, with exactly the terminals reachable through leading symbols, although a terminal added to an existing entry does not count as a change |
| Code.PutAppends | recde/recdec.cpp:523-601 | what the walk appends is the rendering of the code, whatever was written before |
| Code.RoundTripBlock | recde/recdec.cpp:526-600 | the text of a block, followed by anything that ends a block, reads back as that block: braces match and nothing is ambiguous |
| Code.RoundTripAll | recde/recdec.cpp:618-665 | the text of the whole program reads back as its functions |
| Code.PossibleMeaning | recde/recdec.cpp:587-590 | an error entry lists the keys of its node, each once, in the order of names |
| Parser.LinesPerform | recde/recdec.cpp:543-560 | the lines written for an action, carried out one by one, store the current token before the next is fetched, or call and store the result |
| Generator.RecurDec.WalkTrie | recde/recdec.cpp:523-601 | walking a heap trie appends the text of the compiled trie and its error entries in order, and restores the name stack |
| Generator.RecurDec.WalkLink | recde/recdec.cpp:529-586 | one child: test, action, inner block and return in that order, with the store name on the stack exactly while inside |
| Generator.RecurDec.NewErrorStuff | recde/recdec.cpp:462-466 | the id of a new entry is its position in the table |
| Generator.RecurDec.WalkTrieConstructor | recde/recdec.cpp:697-710 | the constructor lists of a trie are appended in the order of the walk |
| Generator.RecurDec.BuildTrie | recde/recdec.cpp:649-657 | the heap trie of a rule shows the trie of all its alternatives; for every path the value and the key are those of the pair of the multimap with the least index that has these symbols, or begins with them |
| Generator.RecurDec.GenRule | recde/recdec.cpp:603-680 | one rule: look-ahead test from its FIRST set, parse function from its trie, error ids counting on |
| Generator.RecurDec.GenRules | recde/recdec.cpp:111-131 | every rule once, in the order of the multimap |
| Generator.OrderAt | recde/recdec.cpp:111-131 | that order: each rule stands once, where its first pair stands among the first pairs of the others |
| Parser.MoreFuelParse | recde/recdec.cpp:551-556 | a call that came to a result comes to the same one with more steps allowed |
| Soundness.ProgramImplements | recde/recdec.cpp:603-680 | the emitted functions are, for every rule and nothing else, the compiled trie with its FIRST set and error entries |
| Soundness.ProperParse | recde/recdec.cpp:523-601 | totality: a call returns, throws or is cut short, never runs off its text; a throw is explained by a way through the tries that reads exactly the tokens consumed and ends at the valueless node whose rule, part, depth and keys its entry holds, none of which begins with the current token |
| Soundness.FallNode | recde/recdec.cpp:570-600 | a block is left without return or throw only where its node holds a value, and then nothing was consumed |
| Soundness.Soundness | recde/recdec.cpp:523-601 | every result explains a prefix of the input: what was read fits the rule's trie and the value is its AST |
| Completeness.CompleteParse | recde/recdec.cpp:523-601 | with disjoint siblings and calm value nodes, the code reads exactly what its trie allows, from any context that may follow, and leaves the rest |
| Completeness.Quiet | recde/recdec.cpp:529-586 | where no sibling starts with the current token the whole chain is skipped |
| Stopping.StopsExactly | recde/recdec.cpp:529-560 | every call of every rule stops on every input with a return or a throw if and only if no token leads around a cycle of first calls |
| Stopping.Diverges | recde/recdec.cpp:551-556 | a call of a rule on such a cycle comes to no result, whatever the number of steps |
| Stopping.LeftRecursionDiverges | recde/recdec.cpp:529-560 | a left-recursive rule whose parser runs for ever on a token it derives |
| Stopping.NoLeftRecursion | recde/recdec.cpp:529-560 | where no rule comes back to itself through calls at the roots of the tries there is no such cycle |
| Stopping.Termination | recde/recdec.cpp:523-601 | nor is there one with disjoint siblings, so that every call stops |
| Faithfulness.FaithfulExactly | recde/recdec.cpp:543-560 | about trees: every way the code can read is itself a derivation if and only if every key that some reading goes through is called or no rule |
| Faithfulness.FaithfulIsGood | recde/recdec.cpp:543-560 | about trees: where no key is useless, that holds if and only if every rule's name among the keys of the tries has a store name and is no token |
| Faithfulness.NamesUsesFaithful | recde/recdec.cpp:543-560 | naming every use of a rule, by names that are no tokens, is enough |
| Faithfulness.ReadsIffDerives | recde/recdec.cpp:543-560 | on such a grammar, what the code reads at a rule's trie is exactly what the rule derives |
| TokenSoundness.SoundExactly | recde/recdec.cpp:543-560 | where one token decides: whatever any call consumes when it returns is derived by its rule if and only if every key that some reading goes through is called, is no rule, or is a rule that derives alone each token it can begin with |
| TokenSoundness.DecidesExactly | recde/recdec.cpp:543-560 | where one token decides: every rule's parser accepts exactly the token sequences the rule derives if and only if, beyond that, the rules that are not called derive single tokens only |
| TokenSoundness.OkIsSound | recde/recdec.cpp:523-601 | that condition is enough for soundness on every grammar, whether one token decides or not |
| TokenSoundness.SingleIsComplete | recde/recdec.cpp:523-601 | every derivation is accepted where the rules that are not called derive single tokens only |
| TokenSoundness.HarmlessKey | recde/recdec.cpp:551-560 | a node from which only derived tokens are read has no usable key whose rule is read as a token it does not derive |
| TokenSoundness.DeriveUnique | recde/recdec.cpp:523-601 | two derivations from a node that begin the same text, each in front of something that may follow, are of the same tokens |
| Recognition.PrefixFreeExactly | recde/recdec.cpp:523-601 | without prefix alternatives one condition is exact for both: soundness, and acceptance of just what is derived |
| Recognition.AcceptedIsDerived | recde/recdec.cpp:523-601 | soundness: an accepted prefix is derived by the rule; where all keys are called the value returned is the AST of a derivation |
| Recognition.AstMeaning | recde/recdec.cpp:570-580 | that AST has the end name that the pair of least index with the symbols read gives its first part; each argument is the child stored last under its name, so all stored children are there in order if and only if those under one name are equal |
| Recognition.ShadowedChild | recde/recdec.cpp:545-549 | two tokens stored under one name: both arguments are the second one |
| Recognition.DerivedIsAccepted | recde/recdec.cpp:523-601 | completeness: every derivation is accepted in front of every rest that may follow, consuming exactly its tokens and returning its AST |
| Recognition.DerivedIsAcceptedAnywhere | recde/recdec.cpp:523-601 | without prefix alternatives that holds in front of any tokens |
| Recognition.Decides | recde/recdec.cpp:523-601 | on such grammars the parser accepts a whole input if and only if the rule derives it, and stops on all inputs |
| Recognition.Unambiguous | recde/recdec.cpp:523-601 | two derivations of the same tokens have the same AST, where all keys are called |
| Recognition.UnambiguousReading | recde/recdec.cpp:523-601 | and so have two readings on every grammar where one token decides |
| Recognition.ReturnAtPath | recde/recdec.cpp:570-580 | the return at the end of a path has the tag of that node and the stored names along the path |
| Recognition.PartByPart | recde/recdec.cpp:543-560 | a stored part is recorded, and becomes an argument if and only if it is a token or a rule, in the order of the path |
| Recognition.StoreInOrder | recde/recdec.cpp:697-710 | one list is recorded for every path to a value, a path before its extensions and siblings in the order of their names |
| Recognition.StoreExactly | recde/recdec.cpp:697-710 | the lists recorded are those of the stored parts along the paths to a value, all of them and no others |
| Recognition.ConstructorMatchesReturn | recde/recdec.cpp:697-710 | recorded parts and return arguments have the same names if and only if each stored symbol of the path is a token or a rule |
| Recognition.StrayArgument | recde/recdec.cpp:705-707 | a stored symbol that is neither: the constructor takes it, the return does not pass it |
| Driver.Generate | recde/recdec.cpp:1411-1418 | end to end: the text written for any grammar without empty alternatives reads back as a program that implements it, with its error table |
| Driver.UnnamedUseAcceptsTooMuch | recde/recdec.cpp:551-560 | a rule used without a store name is read as one token: a grammar that fails the condition, whose parser accepts what it does not derive |
| Driver.HarmlessUse | recde/recdec.cpp:551-560 | a rule used without a store name that meets the condition: whatever the parser consumes is derived |
| Int128s.Less | int128.hpp:328-337 | the comparison of the words is the comparison of the integers |
| Int128s.GreaterEqual | int128.hpp:434-446 | likewise for `>=` |
| Int128s.Add | int128.hpp:448-458 | the sum modulo 2^128, the carry decided by the low words |
| Int128s.Sub | int128.hpp:530-541 | the difference modulo 2^128, borrow included |
| Int128s.Neg | int128.hpp:561-572 | the negation modulo 2^128, so -2^127 is its own |
| Int128s.Shr | int128.hpp:576-586 | the quotient by two, rounded down |
| Int128s.Mult1 | int128.hpp:599-647 | the exact signed product modulo 2^128 for all operands |
| Int128s.AddColumns | int128.hpp:619-646 | the limb products, added up with every carry, modulo 2^128 |
| Int128Division.TruncUnique | int128.hpp:769-776 | truncated division is the only one whose remainder is smaller than the divisor and not of the other sign |
| Int128Division.DoubleUp | int128.hpp:712-720 | the doubling loop stops without overflow: the divisor times a power of two is subtracted once, and what is left is smaller than it |
| Int128Division.HalveDown | int128.hpp:722-731 | the halving loop yields quotient and remainder of what doubling began with |
| Int128Division.Div1 | int128.hpp:679-747 | for all operands but the divisor -2^127 below a larger dividend: division by zero, or quotient and remainder whose magnitudes give back the dividend, the remainder below the divisor and the quotient negative when the signs differ; -2^127 divides by 1 and -1 to itself and by anything else to 0 |
| Int128Division.MachineDivision | int128.hpp:679-747 | what the functions that specify the division have in common with the integers, for every dividend and divisor |
| Int128Division.QuotientExact | int128.hpp:701-708 | the quotient is the truncated one modulo 2^128 if and only if the dividend is not -2^127 or the divisor is 1 or -1 |
| Int128Division.MinDivisorDiverges | int128.hpp:713-719 | with the divisor -2^127 and another dividend the guard of the doubling loop holds before every round, for ever |
| Int128Division.Mod | int128.hpp:769-776 | division by zero, or a result that is the remainder of truncated division if and only if the dividend is not -2^127 or the divisor is 1 or -1; smaller than the divisor and zero or of the dividend's sign for every dividend but -2^127 |
| Int128Division.ModMeaning | int128.hpp:769-776 | wrapping in between does no harm: `x - d * (x / d)` modulo 2^128 meets the remainder's equation exactly on those operands |
| Int128Division.PowerOf | int128.hpp:304-325 | base^t modulo 2^128 for every t >= 1, negative bases included; the base itself for t < 1 |
| Int128Division.PowerSum | int128.hpp:304-325 | the power that is meant: exponents add up |
| Int128Print.DecimalMeaning | int128.hpp:840-860 | the numeral stands for its number, has only digits and no leading zero |
| Int128Print.NumeralMeaning | int128.hpp:815-823 | below zero a minus sign and digits that read as the negation, otherwise digits that read as the number; no leading zero |
| Int128Print.ValueOfFront | int128.hpp:840-860 | reading: the first digit weighs as much as its position says |
| Int128Print.PadIsDecimal | int128.hpp:840-860 | digits taken from the top, as many as were counted, are the numeral |
| Int128Print.CountDigits | int128.hpp:825-838 | the number of digits, at most 39, also where the power of ten wraps and `going` stops the count |
| Int128Print.ExtractDigit | int128.hpp:853-857 | repeated subtraction gives the top digit and what is left |
| Int128Print.Str | int128.hpp:810-861 | what the buffer holds in front of its NUL reads back as the value, the sign included: a minus sign exactly for values below zero, then digits without a leading zero; for -2^127 only the sign |
| Int128Print.TextExact | int128.hpp:815-823 | the text is the numeral if and only if the value is not -2^127 |
| Logger.InvStep | log.hpp:85-126 | every step of every thread keeps the invariant: locks, phases, permits, no lost wake-up, flow of payloads |
| Logger.ReachableInv | log.hpp:85-126 | so it holds in every reachable state, for any number of producers and every interleaving |
| Logger.PermitInvariant | semaphore.hpp:16-30 | count plus permit in hand equals the completed pushes still queued plus the notification of the end |
| Logger.NeverPopsEmpty | log.hpp:104-105 | the writer never takes the front of an empty deque |
| Logger.MutualExclusion | log.hpp:90-108 | no two threads are inside the deque's critical section |
| Logger.OutputAtExit | log.hpp:96-126 | when the writer has left its loop the output is the payloads of exactly the pushes of the level or above, in push order, and each producer's calls are exactly its pushes, in order |
| Logger.NoDeadlock | log.hpp:85-126 | while anyone is busy some thread can step, without a spurious wake-up |
| Logger.EndedStep | log.hpp:85-126 | after endLogger the writer never sleeps, and each of its steps decreases a measure on queue and position |
| Logger.EndedRuns | log.hpp:85-126 | every run after that is bounded, and one that cannot go on has finished |
| Logger.EndingRuns | log.hpp:85-126 | every run from the call of endLogger on is bounded, but for spurious wake-ups, and one in which no thread can step has endLogger returned and the writer finished |
| Logger.DestructorCompletes | log.hpp:74-77 | from that call on the join of the destructor can always be reached, with everything written |
| CombinationsModule.RankOrder | combinations.hpp:31-49 | the rank of a combination orders lexicographically and determines it |
| CombinationsModule.LexMeaning | combinations.hpp:31-49 | lexicographic: the smaller element at the first difference |
| CombinationsModule.AdvanceRank | combinations.hpp:36-45 | the step of `next` goes to the combination of the next rank |
| CombinationsModule.Combinations.constructor | combinations.hpp:16-22 | the first combination, or completed when there is none |
| CombinationsModule.Combinations.Next | combinations.hpp:31-49 | returns the current tuple and moves to its successor, or reports completion exactly at the last one |
| CombinationsModule.EnumerateAll | combinations.hpp:16-49 | calling `next` until completed lists every combination exactly once in lexicographic order, and `generated` is C(N,R) - 1 |
| Parallel.Split | parallelalgo.hpp:172-199 | chunks without gap or overlap; with fewer positions than threads one for each position, otherwise one of n / numThreads positions for each thread, so that n % numThreads positions are left out |
| Parallel.FindIfResult | parallelalgo.hpp:185-205 | in every interleaving the result is the end if and only if nothing in the covered prefix satisfies the predicate, and otherwise a position there that does |
| Parallel.FindIfExactly | parallelalgo.hpp:168-206 | the answer is right for every predicate and in every interleaving if and only if the thread count divides the length of the range or exceeds it |
| Parallel.Missed | parallelalgo.hpp:185-205 | otherwise the first position behind the prefix is missed when it is the only match |
| Parallel.CoverageExact | parallelalgo.hpp:172-185 | the size of the chunks and the length of the prefix; it is the whole range if and only if the thread count divides its length or exceeds it |
| Parallel.SeekProgress | parallelalgo.hpp:190-196 | every step of an unfinished thread uses up part of a finite amount of work |
| Parallel.MapSplit | parallelalgo.hpp:129-150 | the jobs of `mapReduce` cover every element exactly once, for all lengths and thread counts; a remainder gets a job of its own |
| Parallel.CanFinish | parallelalgo.hpp:190-203 | some interleaving ends |
| Parallel.MapReduceResult | parallelalgo.hpp:113-156 | in every interleaving the output is whole blocks in the order of the mutex; it has the items of the sequential map as a multiset, and as a set when the jobs' stores drop duplicates and list the rest in any order |
| Parallel.FlatMapAt | parallelalgo.hpp:116-119 | the sequential map is what the function gives for one element after the other |
| Parallel.FlatMapMembers | parallelalgo.hpp:116-119 | its members, and how often it has each, in terms of what the function gives for each element |
| Parallel.BlocksAt | parallelalgo.hpp:121-123 | the output of several jobs is what each one's store lists, cut at known positions, in the order of the mutex |
| Parallel.PlacedResult | parallelalgo.hpp:121-148 | with an output iterator that writes position by position the blocks are written over one another in the order of the mutex, and the result is complete if and only if no two jobs have anything to deliver |
| Parallel.SetKeepsMembers | parallelalgo.hpp:116-122 | a set is such a store |
| Parallel.MapProgress | parallelalgo.hpp:113-124 | every step of a job that is not waiting uses up part of a finite amount of work |
| Parallel.SomeJobMoves | parallelalgo.hpp:121-123 | no deadlock on the mutex: while a job has not ended, some job can move |
| Parallel.MapCanFinish | parallelalgo.hpp:113-154 | some interleaving ends all jobs |
| Caches.Cache.Insert | cache.hpp:132-150 | the callback is called if and only if the bytes counted and those of the value exceed the budget and the list is not empty, and then with the last entry; the new node stands in front of the others; the count is recomputed; list and index agree if and only if the key was absent or evicted |
| Caches.Cache.Erase | cache.hpp:163-172 | takes the key out of the index and its node out of the list, the others keep their order; hands the entry to the callback; the byte count stays |
| Caches.Cache.Find | cache.hpp:183-189 | moves the node of the key to the front, the others keep their order, and answers with it; index and byte count stay |
| Caches.Cache.Contains | cache.hpp:195-197 | says whether the key is there, and makes it the most recent one |
| Caches.Cache.SizeOfSavedElements | cache.hpp:200-206 | the sum of the sizes of all values |
| Caches.Cache.Size | cache.hpp:174-177 | list and index have the same size |
| Caches.DistinctStep | cache.hpp:132-189 | keys stay distinct if and only if the operation inserts no key that stays in the list |
| Caches.InsertedTwice | cache.hpp:146-147 | an insertion of a key that stays puts it into the list twice |
| Caches.Conservation | cache.hpp:128-189 | over all such runs every inserted pair is present or was handed out, exactly once |
| Caches.RunRecent | cache.hpp:146-188 | over all such runs the list is in order of last use |
| Caches.LastUseMeaning | cache.hpp:132-188 | the last use of a key is the latest insertion or search that names it |
| Caches.EvictsLeastRecent | cache.hpp:136-144 | over all such runs: an insertion that fits by the bytes counted hands out nothing and keeps all entries; one that does not hands out the least recently used entry, and only that one |
| Caches.EvictsOnlyForRoom | cache.hpp:135-149 | over all runs: where nothing was erased since the last insertion, a value is put in without an eviction if and only if it fits beside the bytes stored, or nothing is stored |
| Caches.LastBytes | cache.hpp:200-206 | the bytes of a list are the sum over its entries |
| Caches.BytesReported | cache.hpp:149-206 | the byte count is never too small, and exact after an insertion |
| Caches.OneEvictionEnough | cache.hpp:136-149 | over all runs, erasures included: the count is exact after an insertion, and the budget holds then if and only if evicting one entry makes enough room |
| Caches.NeverOverBudget | cache.hpp:132-150 | values of one size, no larger than the budget, never exceed it, over all runs |
| Caches.MixedSizesOverBudget | cache.hpp:136-149 | values of different sizes can exceed it |
| Fectors.Fector.Insert | fector.hpp:226-244 | the in-place shift is exactly a splice in front of the position: every slot behind it has the element of the slot before |
| Fectors.Fector.Erase | fector.hpp:246-262 | slot by slot: the in-place shift removes exactly the range; when fewer elements are left there, nothing moves and the last ones go instead |
| Fectors.Fector.PushBack | fector.hpp:163-171 | appends, or throws on a full vector and leaves it alone |
| Fectors.Fector.PopBack | fector.hpp:210-216 | drops the last elements |
| Fectors.Fector.Resize | fector.hpp:83-91 | cuts or fills up to the length; beyond the capacity it fills the vector and throws |
| Fectors.PositionsOf | fector.hpp:226-262 | where each element stands after an insertion and an erasure of any length |
| Fectors.EraseInsert | fector.hpp:226-262 | erasing undoes inserting |
| Fectors.InsertErase | fector.hpp:226-262 | inserting undoes erasing |
| Faps.AsMapInjective | fap.hpp:48-66 | a sorted sequence is determined by the finite map it stands for |
| Faps.InsertPair | fap.hpp:57-62 | a pair with a new key at its lower bound keeps the order and adds that pair to the map |
| Faps.ErasePair | fap.hpp:114-120 | erasing a pair keeps the order and removes that key from the map |
| Faps.Fap.Insert | fap.hpp:50-66 | never overwrites, reports novelty exactly, returns the position of the key, and throws on a full map for a key above all others |
| Faps.Fap.Find | fap.hpp:70-84 | the position of the first key not below the one sought |
| Faps.FindRight | fap.hpp:77-83 | that is the pair of the key or the end if and only if the key is present or above all keys |
| Faps.FindAbsent | fap.hpp:77-83 | a search for an absent key that answers with another pair |
| Faps.Fap.Erase | fap.hpp:114-120 | removes the pair at the position from order and map; at the end position, the last pair |
| Allocators.RunSound | bllocator.hpp:151-231 | over every run of allocations and frees in any order, blocks in use stay disjoint and inside the used part |
| Allocators.LastInFirstOut | bllocator.hpp:160-177 | blocks freed in the reverse order of their allocation leave the region as it was |
| Allocators.PoolAllocator.Allocate | bllocator.hpp:205-214 | a fresh block behind all others, or null exactly when it does not fit |
| Allocators.PoolAllocator.Deallocate | bllocator.hpp:216-222 | the topmost block is taken back, any other is lost, and the blocks in use stay sound |
| Allocators.AccountedDisjoint | bllocator.hpp:103-149 | live and parked blocks that are not empty are each there once, all pairwise disjoint and inside the used part, and their sizes add up to it |
| Allocators.FreeDequeAllocator.Allocate | bllocator.hpp:123-136 | the first parked block of exactly that size, or else a new one; the account is kept |
| Allocators.FreeDequeAllocator.Deallocate | bllocator.hpp:138-140 | the block is parked last, and the region keeps its size |
| Allocators.FirstRecognised | bllocator.hpp:77-79 | a block of the first region is recognised as its own |
| Allocators.SecondRecognised | bllocator.hpp:77-86 | a block of the second region is claimed by the first if and only if it starts at the first one's top, which then is full and touches the second |
| Allocators.GapIsEnough | bllocator.hpp:77-86 | with one byte between the regions the second one's blocks are recognised as its own only |
| Allocators.AdjacentMisroutes | bllocator.hpp:77-86 | two touching regions where a block goes to the wrong one and is not taken back |
| Allocators.FallbackAllocator.Allocate | bllocator.hpp:64-75 | the second region serves only what the first cannot, and bad_alloc comes exactly when neither can |
| Allocators.FallbackAllocator.Deallocate | bllocator.hpp:77-86 | each block goes back to the region that made it, unless it starts where the first region's used part ends; an empty block changes nothing, and throws exactly when neither region has its address in use |
| Allocators.EmptyBlockThrows | bllocator.hpp:77-86 | a run in which it throws |
| FallbackDeque.GrantExactly | bllocator.hpp:64-75 | a granted block has exactly the size asked for: the first parked one of that size, else the one at the pool's top if it fits, else what `malloc` offers; the request fails only without an offer, and nothing else changes |
| FallbackDeque.TakeBackExactly | bllocator.hpp:77-86 | a block that starts in the used part of the pool or at its top is parked last, any other is freed |
| FallbackDeque.RunDisjoint | bllocator.hpp:57-149 | a pool behind a `FreeDequeAllocator`, with `malloc` to fall back on: over every run no block is in use twice, or in use and parked, and no two overlap |
| FallbackDeque.ParkedExactly | bllocator.hpp:77-86 | a block of `malloc` is parked by the first part, and not freed, if and only if it lies directly behind the full pool |
| Base64.A3ToA4 | base64.hpp:12-17 | the four sextets of the 24-bit number |
| Base64.SymbolOrder | base64.hpp:9-10 | the symbols are the characters of the alphabet of RFC 4648, in its order |
| Base64.Lookup | base64.hpp:25-32 | the inverse of the alphabet, and 255 for every other character |
| Base64.EncodeBase64 | base64.hpp:34-78 | for every split into chunks, the encoding of section 4 of RFC 4648 |
| Base64.EncodeTail | base64.hpp:63-77 | the one or two bytes left over become a padded group |
| Base64.EncodeAt | base64.hpp:34-78 | each group of four characters, from the bits of the three bytes it stands for, with pad characters where bytes are missing |
| Base64.EncodeLength | base64.hpp:34-78 | four characters for every three bytes or part of them |
| Base64.DecodeBase64 | base64.hpp:80-157 | for every split into chunks, the decoding of what stands before the first pad character |
| Base64.DecodeLeft | base64.hpp:141-156 | characters left over yield one byte fewer than there are, missing ones reading as 255 |
| Base64.ChopMeaning | base64.hpp:94-97 | what is read ends in front of the first pad character, or with the text |
| Base64.DecodeAt | base64.hpp:80-157 | each byte of a decoding, from the values of the two characters that hold its bits, for every text |
| Base64.TextLength | base64.hpp:141-156 | three bytes for four characters, and one byte fewer than there are characters for those left over |
| Base64.DecodeEncode | base64.hpp:34-157 | decoding an encoded byte sequence gives it back, for all byte sequences |
| Base64.EncodeDecode | base64.hpp:34-157 | encoding a decoded text gives it back if and only if the text is canonical |

## Left out

- The dot graph, the header, the AST classes with their minimised constructors, the visitors, file output and the reading of rule files: text plumbing around the parser's control flow.
- White space in the emitted text: a line of the model is one emitted statement or brace.
- The look-ahead function of a rule whose FIRST set is empty is not valid C++; the model lets that test fail.
- The inner `std::set` loop of `computeFirstSet` is a union, and the iteration starts from the empty table, as the program does.
- Int128Division.Div1: the divisor -2^127 with another dividend is excluded, because the loop does not end there (`MinDivisorDiverges`); signed overflow is modelled as wrap-around.
- Floating-point conversions, `digits`, stream output and the string constructor of int128.
- Fectors.Fector.Insert: a position at the end of a non-empty vector and a full vector are excluded, because the source then writes outside its buffer.
- Fectors.Fector.Erase: erasing more elements than there are is excluded, and likewise `Fectors.Fector.PopBack`, because the source then runs in front of its buffer.
- Fectors.Fector.constructor: the 16-bit width of `idx` is not modelled, so capacities above 65535 are not covered.
- Faps.Fap.Insert: a full map with a key to be put in front of another is excluded for the same reason; the order is strict and total, as `std::less` is.
- `Fap::erase(key)`: it passes a pointer to pairs with constant keys where the vector wants another type.
- Logger: the level is constant, no log() is in progress when endLogger() begins or starts afterwards, and each access to a flag or field is one step in a sequentially consistent order; time formatting and `LoggerSource` are not modelled.
- CombinationsModule.Combinations: the buffer has a slot behind the tuple, because the rewriting loop writes one index too far; the 32-bit width of `generated` is not modelled.
- Parallel.Split: zero threads is a division by zero in the source and excluded.
- `for_each` and `transform` of parallelalgo.hpp: their parity-based splitting does not partition.
- Caches: moved-from values and `erase` by iterator; a later operation after list and index have come apart.
- Allocators.FallbackAllocator: the class is over two pools; the composition with `FreeDequeAllocator` and `Mallocator` is in `FallbackDeque`, as a function of requests and answers of `malloc`.
- Allocators: alignment, `size_t` wrap-around, `FailAllocator`, the destructor of `FreeDequeAllocator` and the STL adapter; `StackAllocator` and `PoolAllocator` run the same code and share one class.
- Base64.EncodeBase64: the stream delivers bytes in chunks of any size; that `istream::get` stops at a line break is not modelled.
- decimal.hpp, fixed.hpp, bitvector.hpp, sjson.hpp, the lexer, and the headers that only wrap the operating system or have easy finite properties.
