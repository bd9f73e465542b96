# Anagram finder: a verified model

The program reads a dictionary into a ternary search tree, gathers the words that can be built from the
letters of a master phrase, and combines them by a pruned recursive search, on several threads, into phrases
that use up the master's letters. Results go into an ordered map, or straight to an output queue that a
worker thread prints.

This project models that program in Dafny and proves what it computes. The main results:

- **End to end** (`Anagrams.FindAnagrams`). For any dictionary files, exclude set, thread count and master
  within the capacities of the counts and buffers, and for every interleaving of the threads' locked insertions,
  what is delivered is every anagram over the words kept by the lookups exactly once and nothing else. An anagram
  is a sequence of one or more non-excluded words, non-decreasing in lexicographic order, whose letter multisets sum
  to the master's; without `-d` its first two words must differ. With at most 4096 words of each initial and length,
  and more generally where the lookups lose no word, these are the anagrams over the whole dictionary. One-word
  anagrams come in the order of the lookups and their keys, and each thread finds its phrases in the order of their
  words.
- **Order of the walk** (`Tries.WalkInOrder`, `FuzzyFinds.KeyIsRank`). At each node a walk meets the node's own word,
  then left, center and right; the key of a kept word of n letters is 4096 * (n - 1) plus the number of words of its
  length met before it.
- **Lost words** (`FuzzyFinds.KeptIffLastOfKey`, `FuzzyFinds.AllKeptIffRoomFor`, `Anagrams.AllKeptIffRoomForAll`). A
  word is lost exactly when a later word of the walk is given its key. For a dictionary, the lookup of a letter
  keeps everything if and only if no length m has more than (n - m) * 4096 words with that initial for a greater
  length n that occurs; and how many words it keeps (`FuzzyFinds.KeptNumber`) does not depend on the shape of the
  tree. `FuzzyFinds.CrowdedLosesWordIff` and `Anagrams.CrowdedFileLosesAnagram` exhibit a dictionary
  that loses a word from the 4097th word of one length on, and an anagram with it.
- **Printed output** (`Anagrams.OneThreadPrints`, `Anagrams.OneThreadCompletes`). With one thread and direct output,
  whatever the steps of the producer and the worker, what was printed is a beginning of the list of anagrams, and
  every run can be completed to one that has all of it printed. Every line fits a slot of the queue (`Anagrams.LinesFitSlots`).
- **Byte 255** (`Tries.InsertEndsIff`). Inserting a word ends if and only if byte 255 does not occur in it.
- **Shared scratch hashes** (`Combines.CombineSubsetsRecurseFast`). The search that reuses hashes down the
  recursion equals a recursion on fresh multisets; its `modifies` clause is exactly the scratch hash and the
  buffers from its depth on.
- **Depth** (`Depths.BuffersSufficeIff`). Among the masters whose letters can be counted, the 64 scratch buffers
  suffice for every dictionary if and only if the master has at most 66 letters, with or without `-d`.
- **Repeated words** (`Repeats.*`). Without `-d` exactly the phrases whose first two words are equal are dropped, so a
  later word can repeat. For given words it can if and only if the letters left after taking some word twice are
  those of a phrase that begins before it; three letters are the least for which it can.
- **Heap tree** (`TernaryTrees.*`). Insertion keeps search order, disjointness and parent links; climbing parents
  spells the path; extrapolation meets every stored continuation once.
- **Edit distance** (`EditDistances.*`). The one-column program computes the recursive edit distance, which is the
  least number of single-character edits and a metric.
- **Output queue** (`QueueProtocols.FifoIffRoom`, `QueueProtocols.FifoIffOneProducer`). With any number of producers a
  run is first in, first out if and only if every text finds room; over all runs, with the full test interleaved
  freely with the drain, that is so if and only if there is at most one producer. With several producers
  `QueueProtocols.LossIsExact` says which texts are lost: 256 for each text pushed onto a full queue. From every state
  of every run further steps print everything that is not lost and free the lock
  (`QueueProtocols.EverythingGetsPrinted`).

## How the model is laid out

| file | models |
|---|---|
| `Text.dfy`, `Lists.dfy`, `KeyMap.dfy` | words, letters, phrases, the order of map keys, the ordered maps |
| `OccupancyHash.dfy` | the letter-count hash on its three arrays |
| `EditDistance.dfy` | edit distance and the one-column program |
| `Trie.dfy`, `TernaryTree.dfy` | the tree as a value, and on the heap with parent links |
| `Ties.dfy`, `FuzzyFind.dfy` | score keys, and what an inexact lookup finds |
| `Search.dfy`, `Combine.dfy` | the search on values, and the combiner on the heap |
| `Depth.dfy`, `Repeat.dfy` | how deep the search goes, and when a word can repeat |
| `Load.dfy`, `Gather.dfy`, `Anagram.dfy` | loading, gathering, the whole program |
| `Interleavings.dfy`, `AnagramSpec.dfy` | interleaved threads, what an anagram is |
| `OutputQueue.dfy`, `QueueProtocol.dfy` | the ring buffer, and its producers and worker step by step |

Conventions. A `std::map<std::string, int>` of the program only ever stores 1, so `KeyMap` keeps its keys in
ascending order and an iterator is a position. `TNode **` insertion returns the node the link holds afterwards.
Maps and deques passed by pointer are in- and out-parameters. Ghost parameters carry the words, letters and
positions a call works on. Long methods of the source are split where their loop bodies end.

Where code and comments differ the code is followed:

- The usage text says that without `-d` no word appears twice. The code compares the next word with the whole
  phrase so far (`src/main.cc:261`), which bars equality of the first two words only. `Searches.Solution` states
  the exact rule, `Repeats.FlagDropsExactly` what the flag changes, and `Repeats.RepeatsIff` and
  `Repeats.RepeatsFromThreeLetters` when a word can repeat.
- The comment on `Compare` lists a result -2, which is never returned.
- The string constructor of the hash builds a temporary instead of delegating (`include/occupancy_hash.h:25-28`);
  it is modelled as a blank hash that then counts, as intended.
- `Lock.Acquire` tests and sets in two steps (`include/anagram_lock.h:37-49`); it is modelled as an atomic mutex, as
  intended.

Capacities are preconditions: dictionary lines are non-empty, contain no space and are shorter than 2^19
characters. Words that begin with a letter of the master are 7-bit text with at most 40 distinct letters and at
most 127 of each; the master is 7-bit text with at most 40 distinct letters, at most 63 of each and at most 66 in
all. All other lines may hold any bytes from 1 to 254: 71 lines of `res/anagram_dict_no_abbreviations.txt`, which is always
loaded (`src/main.cc:778`), hold bytes above 127. Such lines are inserted like others, with `tolower` taken to
return a negative `char` as its unsigned byte, as the C locale of glibc does. Byte 255 is different: as a `char` it
is -1, which is `EOF` and which `tolower` returns unchanged, so that it compares as less than its own key
(`Text.Compared`) and its insertion never ends; no shipped dictionary holds it. A lookup compares signed characters
with unsigned keys and never finds them (`src/ternary_tree.cc:139-141`). For masters that share an initial with one
of these lines nothing is claimed, since the program then counts letters at negative indexes
(`include/occupancy_hash.h:193-204`).

## Model

| member | source | states |
|---|---|---|
| OccupancyHashes.OccupancyHash.constructor | include/occupancy_hash.h:18-24 | a new hash is well formed and stands for the empty multiset |
| OccupancyHashes.OccupancyHash.Clear | include/occupancy_hash.h:32-40 | blanking only the entries in use leaves every entry of all three tables blank |
| OccupancyHashes.OccupancyHash.AddCount | include/occupancy_hash.h:69-76 | one character's count grows by the given amount, all others stay, and the list of characters and its inverse stay consistent, whether or not the character was listed |
| OccupancyHashes.OccupancyHash.Add | include/occupancy_hash.h:62-78 | `+=` is multiset sum and keeps the representation invariant |
| OccupancyHashes.OccupancyHash.GetCharCountMap | include/occupancy_hash.h:189-207 | adds the letters of the text, spaces skipped, to what the hash holds |
| OccupancyHashes.OccupancyHash.Compare | include/occupancy_hash.h:114-159 | decides multiset order: 0 iff equal, -1 iff a proper sub-multiset, 1 iff not a sub-multiset, and no other result |
| OccupancyHashes.OccupancyHash.MoreDistinctNotBelow | include/occupancy_hash.h:118-124 | pigeonhole: a sub-multiset never has more distinct letters, which justifies the early exits |
| OccupancyHashes.OccupancyHash.IsSubset | include/occupancy_hash.h:165-184 | true iff a sub-multiset |
| OccupancyHashes.OccupancyHash.KeysAreDistinctLetters | include/occupancy_hash.h:210-214 | the occupied list holds exactly the letters of non-zero count, each once, so its length is their number |
| Text.LowerFolds | include/ternary_tree.h:46-53 | lower-casing replaces exactly the 26 capitals by their small letters and leaves no capital |
| Text.LessIsPrecedes | src/main.cc:259 | the order of map keys is the lexicographic one: two keys agree up to a place where the first ends or has the smaller character |
| Text.SplitJoin | src/main.cc:273-276 | a phrase, split at its spaces, is its words in order |
| EditDistances.CalcLevenshtein | src/ternary_tree.cc:402-429 | the one-column, in-place program in 32-bit unsigned arithmetic returns the recursive edit distance, for all texts not both empty |
| EditDistances.DistanceIsLeastEdits | src/ternary_tree.cc:393-401 | no sequence of single-character insertions, deletions and substitutions is shorter than the distance and one is exactly as long |
| EditDistances.Symmetric | src/ternary_tree.cc:395-397 | the distance is commutative, as its comment claims |
| EditDistances.ZeroIffEqual | src/ternary_tree.cc:402-429 | the distance is zero iff the texts are equal |
| EditDistances.Triangle | src/ternary_tree.cc:402-429 | the triangle inequality |
| EditDistances.DistanceToExtension | src/ternary_tree.cc:280 | a word and its extension by s differ by the length of s |
| Tries.InsertAddsWord | src/ternary_tree.cc:78-156 | after inserting v, a lookup of w succeeds iff w is v with its capitals replaced by small letters or the lookup succeeded before |
| Tries.InsertPresent | src/ternary_tree.cc:78-125 | inserting a stored word changes nothing in the tree |
| Tries.InsertOrdered | src/ternary_tree.cc:86-95 | insertion keeps the search order of every level |
| Text.ComparedIsKeyIff | src/ternary_tree.cc:82-92 | the compared value of a byte equals the key of the node made for it iff the byte is not 255 |
| Tries.InsertEndsIff | src/ternary_tree.cc:78-125 | whatever the tree, inserting a word of any bytes ends iff byte 255 does not occur in it, and then gives the tree of the other results |
| Tries.AtContinues | src/ternary_tree.cc:134-156 | looking up stem+u is looking up u below the node of stem |
| Tries.WalkSound | src/ternary_tree.cc:237-347 | extrapolation only yields stored continuations of the stem, within the clamp |
| Tries.WalkComplete | src/ternary_tree.cc:317-344 | without a clamp every stored proper continuation is yielded |
| Tries.ClampHarmlessIff | src/ternary_tree.cc:282-287 | a clamp drops nothing iff no stored continuation of the stem exceeds it |
| Tries.WalkNoRepeats | src/ternary_tree.cc:317-344 | no word is yielded twice |
| Tries.WalkInOrder | src/ternary_tree.cc:317-344 | of two words yielded the first is the earlier one: where their ways part a node's own word precedes those on its left, these those that go on after its character, and these those on its right |
| Tries.EarlierOneWay | src/ternary_tree.cc:317-344 | this order never holds both ways, so it determines the walk |
| TernaryTrees.TNode.constructor | include/ternary_tree.h:46-53 | a new node has as key the small letter of a capital and any other character itself, no children, no parent and no terminator |
| TernaryTrees.TNode.LinkLeft | src/ternary_tree.cc:88-89 | linking a left child gives it the parent of its level and keeps the whole heap invariant |
| TernaryTrees.TNode.LinkRight | src/ternary_tree.cc:94-95 | the same for a right child |
| TernaryTrees.TNode.LinkCenter | src/ternary_tree.cc:101-102 | a center child gets the node itself as parent and the heap invariant is kept |
| TernaryTrees.InsertNode | src/ternary_tree.cc:78-125 | for a word of bytes 1 to 254, insertion through a link keeps order, disjointness and parent links of the heap and builds the tree that inserting into the value gives |
| TernaryTrees.FindNode | src/ternary_tree.cc:134-156 | the lookup agrees with the words stored and reports the node of the path even without a terminator, otherwise passes the old pointer through; a word with a byte above 127 is never found, since signed characters are compared with unsigned keys |
| TernaryTrees.TernaryTree.constructor | src/ternary_tree.cc:48-52 | initial clamp and tie mark |
| TernaryTrees.TernaryTree.Insert | src/ternary_tree.cc:78-125 | for a word of bytes 1 to 254, exactly the word with its capitals folded is added to the words that can be found |
| TernaryTrees.TernaryTree.Find | src/ternary_tree.cc:134-156 | true iff the word is stored and 7-bit |
| TernaryTrees.TernaryTree.Climb | src/ternary_tree.cc:259-264 | with an empty accumulator on entry, climbing parents up to the root spells exactly the characters of the path |
| TernaryTrees.TNode.SetParent | include/templ_node.h:45 | a node without siblings can be moved to the level of another parent |
| TernaryTrees.TernaryTree.KeepScore | src/ternary_tree.cc:297-312 | one scored word goes to its tie breaker plus 4096 times its score, and the high-water mark is kept up to date |
| Ties.HwmIsGreatestTie | src/ternary_tree.cc:299-307 | the high-water mark is the greatest tie breaker given out, 0 when nothing was scored |
| TernaryTrees.TernaryTree.Extrapolate | src/ternary_tree.cc:237-347 | the walk on the heap records, in order, exactly the words of the walk on the tree value, and leaves the accumulator empty |
| TernaryTrees.TernaryTree.FuzzyFind | src/ternary_tree.cc:164-198 | the map is filled from the longest prefix of the query that is a path |
| Ties.RankIsTaken | src/ternary_tree.cc:297-307 | the tie breakers of a score are exactly the numbers below the number of its words |
| Ties.KeysDifferIffRoom | src/ternary_tree.cc:296-312 | the keys tie + score * 4096 are pairwise different iff no score has more words than there are keys up to any greater score that occurs |
| Ties.KeyInUseIff | src/ternary_tree.cc:296-312 | the keys in use afterwards are those in use before and, for each score, as many from score * 4096 on as it has words |
| Ties.SurvivesIffLastOfKey | src/ternary_tree.cc:296-312 | a collected word survives iff no later one is given its key |
| Ties.AllKeptIffRoom | src/ternary_tree.cc:280-312 | no collected word is overwritten, nor the exact match under key 0, iff no score has more words than there are keys up to any greater score that occurs |
| FuzzyFinds.StemIsLongestPath | src/ternary_tree.cc:172-186 | the lookup stops at the longest prefix that is a path |
| FuzzyFinds.MetExactly | src/ternary_tree.cc:189-197 | the words met are exactly the stored proper continuations of that prefix, each once |
| FuzzyFinds.FoundExactIffRoom | src/ternary_tree.cc:164-198 | the values of the map are exactly the stored words with that prefix iff no keys run into each other |
| FuzzyFinds.KeptIffLastOfKey | src/ternary_tree.cc:280-312 | a word is kept by the lookup of its first letter iff no later word of the walk is given its key |
| FuzzyFinds.LetterFound | src/main.cc:443-444 | looking up one letter yields exactly the kept words that begin with it, all of them stored, each under one key, however many words there are |
| FuzzyFinds.KeyIsRank | src/ternary_tree.cc:280-312 | the letter itself is under key 0; any other word found of n letters is under 4096 * (n - 1) plus the number of words of its length that are earlier in the order of the tree |
| FuzzyFinds.AllKeptIffRoomFor | src/ternary_tree.cc:280-312 | in terms of the dictionary: the lookup of a letter keeps every word with that initial iff for every length n that occurs no smaller length m has more than (n - m) * 4096 words |
| FuzzyFinds.FewWordsHaveRoom | src/ternary_tree.cc:296 | at most 4096 words of each length with an initial leave room |
| FuzzyFinds.KeptNumber | src/ternary_tree.cc:280-312 | the number of words kept per initial is that of the keys from 4096 * (n - 1) on for the words of each length n of two or more, those of different lengths united, plus one if the letter is a word |
| FuzzyFinds.CrowdedLosesWordIff | src/ternary_tree.cc:296-312 | n words of three letters and a longer one: any tree that stores them loses one iff n exceeds the 4096 ties the comment allows |
| KeyMaps.KeyMap.Put | src/main.cc:284 | storing a key adds exactly that key, and every key precedes the later ones lexicographically |
| Searches.Extend | src/main.cc:296-320 | each nested call has strictly more letters and still fewer than the master, so the search ends |
| Searches.DuplicateTest | src/main.cc:261-262 | the duplicate test succeeds exactly when the phrase is the one word that comes next |
| Searches.BeginningIsPartial | src/main.cc:296-324 | pruning never cuts off the beginning of a solution |
| Searches.SearchExact | src/main.cc:244-326 | from any phrase and position the search finds exactly the continuations in map order with the master's letters that pass the duplicate rule |
| Searches.SearchNoRepeats | src/main.cc:244-326 | and finds none twice |
| Searches.SearchAscending | src/main.cc:244-326 | and finds them in the order of their words |
| Searches.ThreadSearchExact | src/main.cc:350-383 | a thread finds exactly the solutions whose first word is a whole number of strides from its start |
| Searches.ThreadSearchNoRepeats | src/main.cc:350-383 | and finds none twice |
| Searches.ThreadSearchAscending | src/main.cc:350-383 | and finds them in the order of their words |
| Searches.StridesPartition | src/main.cc:350-383 | each solution is found in exactly one thread: the remainder of its first position by the number of threads |
| Repeats.FlagDropsExactly | src/main.cc:259-262 | without `-d` a thread finds exactly what it finds with it, less the phrases whose first two words are equal |
| Repeats.NoRoomNoRepeat | src/main.cc:171-172 | when no word and twice a later one fit into the master's letters, no phrase found without `-d` repeats a word |
| Repeats.ExactRoomRepeats | src/main.cc:171-172 | when a word and twice a later one are the master's letters, a phrase that repeats a word is found without `-d` |
| Repeats.RepeatsIff | src/main.cc:171-172 | for given words, some phrase found without `-d` repeats a word iff the letters left after taking some word twice are those of a phrase of one or more words that begins before it and not with the same word twice |
| Repeats.RepeatsFromThreeLetters | src/main.cc:171-172 | over all word lists, two is the greatest number of letters for which no word can repeat without `-d` |
| Repeats.RepeatsBehindFirstWord | src/main.cc:171-172 | for the words a and b and the letters a, b, b the phrase "a b b" is found without `-d` |
| Depths.BuffersSufficeIff | src/main.cc:304-347 | for masters whose letters can be counted, with or without `-d`, the index into the 64 buffers is in range for every word list iff the master has at most 66 letters |
| Combines.CountCandidate | src/main.cc:264-270 | the scratch hash holds the letters of the next word and of the phrase so far |
| Combines.Deliver | src/main.cc:276-285 | a complete phrase becomes a line handed to the queue or a key of the map, depending on the flags |
| Combines.TryWord | src/main.cc:259-325 | one round delivers exactly what the search on values finds with that word next |
| Combines.GoDeeper | src/main.cc:306-320 | the recursion with the buffer of its depth leaves this call's phrase and the master untouched |
| Combines.CombineSubsetsRecurseFast | src/main.cc:244-326 | with shared scratch hashes the search delivers exactly what the search on values finds, writing only the scratch hash and the buffers from its depth on |
| Combines.CombineFrom | src/main.cc:358-378 | the branch that would repeat without advancing is never taken, and one round delivers all phrases that begin with one word |
| Combines.AdvanceIterator | src/main.cc:380-382 | advancing stops at the end of the map |
| Combines.CombineSubsetsFast | src/main.cc:334-389 | a thread delivers exactly the phrases of its share, and its loop ends |
| Loads.LowerLine | src/main.cc:108-111 | the lookup key is the line with its capitals replaced by small letters |
| Loads.ReadLine | src/main.cc:112-114 | a guarded insertion leaves the same tree as an unguarded one |
| Loads.ReadDictionaryFile | src/main.cc:80-134 | for lines of bytes 1 to 254, second half then first half builds the tree of inserting the lines in that order, and stores exactly the lines with their capitals folded besides what was there |
| Loads.LoadOrderIndependent | src/main.cc:96-128 | lists with the same lines in any order and number load the same words |
| Gathers.GatherWord | src/main.cc:450-477 | a word is skipped when excluded, delivered once when its letters are the master's, made a partial when they are a proper part |
| Gathers.GatherWords | src/main.cc:449-478 | every word of a lookup is treated, and the full anagrams are found in ascending key order |
| Gathers.GatherLetter | src/main.cc:443-478 | one letter contributes exactly the words its lookup keeps |
| Gathers.Gather | src/main.cc:412-479 | full anagrams are exactly the non-excluded kept words with the master's letters, each delivered once, in the order in which their initials occur in the master and then of their keys; partials exactly the kept words whose letters are a proper part |
| Interleavings.MergeKeepsItems | src/main.cc:283-285 | every interleaving of locked insertions inserts the same phrases with the same multiplicities |
| Interleavings.MergesIffOwned | src/main.cc:283-285 | the interleavings are all lists whose items can be dealt out to the threads so that each gets its own in order |
| AnagramSpecs.SolutionIsAnagram | src/main.cc:244-326 | a solution in positions is an anagram in dictionary words |
| AnagramSpecs.AnagramIsSolution | src/main.cc:244-326 | every anagram of several words is a solution in positions of the partial words |
| AnagramSpecs.AnagramBySplit | src/main.cc:273-284 | a phrase is an anagram iff its parts between the spaces are the words of one |
| AnagramSpecs.ThreadPhrasesInOrder | src/main.cc:350-383 | of two phrases of a thread the first has the smaller word where they first differ |
| AnagramSpecs.InterleavingExact | src/main.cc:334-389 | in any interleaving of the threads each anagram of several words is inserted exactly once and nothing else is |
| Anagrams.Load | src/main.cc:778-789 | after loading all files, of bytes 1 to 254, exactly their lines with the capitals folded are stored, and no word with a capital |
| Anagrams.AllKeptIffRoomForAll | src/main.cc:433-444 | the kept words are all dictionary words that begin with a letter of the master iff for none of these letters keys are overrun |
| Anagrams.CrowdedFileLosesAnagram | src/main.cc:394-503 | with 4097 words of three letters and a longer one in the file, all within the capacities, some word is not found as its own anagram |
| Anagrams.RunThreads | src/main.cc:586-614 | run one after the other, the threads insert an interleaving of what each of them finds; AnyInterleavingExact states the result for every other schedule |
| Anagrams.AnyInterleavingExact | src/main.cc:350-383 | gathered words and any interleaving of the threads together are each anagram exactly once |
| Anagrams.GetAnagrams | src/main.cc:394-503 | gather then combine: the partial words, the one-word anagrams and an interleaving of the longer ones are delivered |
| Anagrams.FindAnagrams | src/main.cc:394-503 | for any dictionary and in any interleaving of the threads, what is delivered is every anagram of the master over the non-excluded kept words exactly once; with room for ties, as with at most 4096 words of each initial and length, over all dictionary words; one-word anagrams in the order of the lookups, the phrases of each thread in the order of their words; the final map holds exactly what is delivered, and every line pushed fits a slot |
| Anagrams.LinesFitSlots | src/output_queue.cc:135-140 | with a master of at most 66 letters every line of output has at most 132 characters, fewer than a slot holds |
| Anagrams.OneThreadPrints | src/output_queue.cc:127-188 | with one thread and direct output, what was printed is at any moment a beginning of the lines of the anagrams, none twice |
| Anagrams.OneThreadCompletes | src/output_queue.cc:127-188 | every such run can be completed to one in which each anagram is printed exactly once |
| OutputQueues.GetItemTot | src/output_queue.cc:153-161 | adding the size repeatedly in wrapping 64-bit arithmetic ends with the difference modulo the size |
| OutputQueues.ItemTotCounts | src/output_queue.cc:153-161 | for every start index and even the transient end index 256 this is (start - end) mod 256 |
| OutputQueues.WaitingPush | src/output_queue.cc:137-145 | writing the slot at the start index disturbs no waiting text; the bump appends it, or with 255 texts waiting makes the queue look empty |
| OutputQueues.WaitingPop | src/output_queue.cc:111-121 | bumping the end index removes the oldest text |
| OutputQueues.OutputQueue.Push | src/output_queue.cc:133-148 | with room the text is appended and the slot of the last pop is left intact; on a full queue, which a second producer may meet, everything waiting is lost |
| OutputQueues.OutputQueue.Pop | src/output_queue.cc:111-121 | the oldest text is removed and its slot returned, or none |
| OutputQueues.OutputQueue.Drain | src/output_queue.cc:178-183 | everything waiting is printed in order and the queue is empty |
| QueueProtocols.FifoIffRoom | src/output_queue.cc:127-188 | for any number of producers and any run: printed text, text in flight and queued text are together the pushed sequence in every state iff fewer than 255 texts wait whenever one is made visible |
| QueueProtocols.LossIsExact | src/output_queue.cc:127-188 | for any number of producers and any run, printed text, text in flight and queued text are exactly the texts not lost, and each text pushed onto a full queue loses 256, itself included |
| QueueProtocols.LockStep | src/output_queue.cc:133-185 | the lock is taken only while the worker is awake or a producer is inside the critical section |
| QueueProtocols.EverythingGetsPrinted | src/output_queue.cc:127-188 | for any number of producers, after any run further steps, none of them a new push, print everything that is not lost, put the worker to sleep and free the lock |
| QueueProtocols.QueueHolds255 | src/output_queue.cc:130 | 255 texts can wait |
| QueueProtocols.OneProducerFifo | src/output_queue.cc:127-148 | with at most one producer every text finds room in every run, although the test for a full queue is made before the lock is taken |
| QueueProtocols.TwoProducersOverflow | src/output_queue.cc:130-133 | two producers that pass the full test together make a queue of 256 texts look empty |
| QueueProtocols.FifoIffOneProducer | src/output_queue.cc:127-188 | the queue is first in, first out over all runs iff there is at most one producer |
| QueueProtocols.PushSteps | src/output_queue.cc:133-148 | the steps under the lock change the memory as `OutputQueue.Push` does |
| QueueProtocols.PopSteps | src/output_queue.cc:180-182 | one round of the worker's loop changes the memory as `OutputQueue.Pop` does and prints its slot |
| QueueProtocols.OneProducerPrints | src/output_queue.cc:127-188 | of a list pushed in order by one producer, printed, printing and waiting texts are at any moment a beginning, and all was printed when everything was pushed and nothing waits |
| QueueProtocols.EveryRunCompletes | src/output_queue.cc:127-188 | every run in which one producer pushes a beginning of a list can be completed to one that pushes and prints the whole list |

## Left out

- Argument parsing, usage text, colours, signals, verbosity logging and PrintSubset formatting: user interface.
- File streams, GetWordCount, memory allocation and DeleteTree: a dictionary file is a sequence of lines with a number of line ends; an empty line would be read past its end by the program and is excluded.
- Creation and joining of threads, sleeps and the gather lock: the gather phase is taken to finish before the combine phase; RunThreads runs the threads one after the other, AnyInterleavingExact covers all other orders.
- Anagrams.FindAnagrams: direct output is stated for what is handed to the queue; OneThreadPrints carries it on to what is printed for one thread, and for two or more threads pushing LossIsExact says what the queue loses of it.
- The "Anagrams found" progress messages and their throttle counter, and the boolean result of Extrapolate: they carry no result.
- OutputQueue shutdown and null pushes: nothing is claimed about printing at exit. Truncation of texts of 256 characters or more: LinesFitSlots shows that there are none.
- The two separate loads in the full test: with one producer only the end index can move between them, so one atomic read is the same; with more producers atomic reads already suffice for the overflow.
- AddChar: unused and inconsistent with the index representation.
- Tries.WalkComplete: only without a clamp, which is what the program sets; a clamp also drops siblings and descendants of a word that exceeds it, and ClampHarmlessIff says when it drops nothing.
- Counts and master sizes beyond the capacities above, where `char` counts would wrap or arrays overflow.
- Keys of scored words are unbounded integers; with words shorter than 2^19 characters the shifted score fits an `int`, and so does the key as long as the tie breaker does not carry it over.
- Lines with byte 255: `tolower` returns -1 for it, and InsertEndsIff shows that the program never finishes inserting them.
- Words with bytes above 127 that begin with a letter of the master: the program would index its counts with negative numbers.
- The upper-case flag of a node is set but, as in the program, never read.
