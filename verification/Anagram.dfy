/**
 The whole program: load the dictionary, gather, and let every thread combine its share. The result is
 exactly the anagrams of the master.
 */
module Anagrams {
  import opened AnagramSpecs
  import opened Combines
  import opened FuzzyFinds
  import opened Gathers
  import opened Interleavings
  import opened KeyMaps
  import opened Lists
  import opened Loads
  import opened OccupancyHashes
  import opened QueueProtocols
  import opened Searches
  import opened TernaryTrees
  import opened Text
  import opened Ties
  import opened Tries

  /** A dictionary file: its lines, and the number of line ends counted in it. */
  datatype DictionaryFile = DictionaryFile(lines: seq<string>, lineTot: nat)

  /** The last line ended or not, each line non-empty and without a space. */
  ghost predicate IsFile(file: DictionaryFile) {
    && (file.lineTot == |file.lines| || file.lineTot + 1 == |file.lines|)
    && forall line :: line in file.lines ==> IsLine(line) && ' ' !in line
  }

  /** The lines in the order in which they are inserted. */
  function ReadOrder(file: DictionaryFile): seq<string>
    requires IsFile(file)
  {
    file.lines[file.lineTot / 2..] + file.lines[..file.lineTot / 2]
  }

  /** The tree that all files are loaded into. */
  ghost function LoadedTree(files: seq<DictionaryFile>): Tree
    requires forall f :: f in files ==> IsFile(f)
  {
    if files == [] then Leaf
    else
      var n := |files| - 1;
      InsertAll(LoadedTree(files[..n]), ReadOrder(files[n]))
  }

  /** The lower-cased words of all files. */
  ghost function Dictionary(files: seq<DictionaryFile>): set<string> {
    set f, line | f in files && line in f.lines :: Lower(line)
  }

  /** `w` is a line of one of the files with its capitals replaced by small letters. */
  ghost predicate IsFoldedLine(files: seq<DictionaryFile>, w: string) {
    exists f, line :: f in files && line in f.lines && FoldsTo(line, w)
  }

  /** The dictionary is the lines with their capitals folded, and no word of it has a capital. */
  lemma DictionaryFolds(files: seq<DictionaryFile>, w: string)
    ensures w in Dictionary(files) <==> IsFoldedLine(files, w)
    ensures w in Dictionary(files) ==> NoCapitals(w)
  {
    forall line {
      LowerFolds(line, w);
    }
    hide Lower, FoldsTo, NoCapitals;
  }

  ghost predicate Stored(t: Tree, dictionary: set<string>) {
    forall w :: Has(t, w) <==> w in dictionary
  }

  /** Exactly the words of the dictionary are loaded, in search order. */
  lemma {:induction false} LoadedExactly(files: seq<DictionaryFile>)
    requires forall f :: f in files ==> IsFile(f)
    ensures Stored(LoadedTree(files), Dictionary(files)) && Ordered(LoadedTree(files))
    decreases |files|
  {
    if files != [] {
      hide Has, Lower, InsertAll, Ordered;
      var n := |files| - 1;
      var before := LoadedTree(files[..n]);
      LoadedExactly(files[..n]);
      OrderKeepsLines(files[n]);
      InsertAllOrdered(before, ReadOrder(files[n]));
      forall w
        ensures Has(LoadedTree(files), w) <==> w in Dictionary(files)
      {
        InsertAllWords(before, ReadOrder(files[n]), w);
        DictionaryNext(files, n, w);
      }
    }
  }

  lemma DictionaryNext(files: seq<DictionaryFile>, k: nat, w: string)
    requires k + 1 == |files| && forall f :: f in files ==> IsFile(f)
    ensures w in Dictionary(files) <==> w in Dictionary(files[..k]) || IsLoweredLine(ReadOrder(files[k]), w)
  {
    hide Lower, FoldsTo, ReadOrder, Dictionary, IsFile, IsLine;
    DictionaryFolds(files, w);
    DictionaryFolds(files[..k], w);
    FoldedNext(files, k, w);
  }

  lemma FoldedNext(files: seq<DictionaryFile>, k: nat, w: string)
    requires k + 1 == |files| && forall f :: f in files ==> IsFile(f)
    ensures IsFoldedLine(files, w) <==> IsFoldedLine(files[..k], w) || IsLoweredLine(ReadOrder(files[k]), w)
  {
    OrderKeepsLines(files[k]);
    hide FoldsTo, ReadOrder;
    assert files == files[..k] + [files[k]];
    if IsLoweredLine(ReadOrder(files[k]), w) {
      var line :| line in ReadOrder(files[k]) && line != "" && FoldsTo(line, w);
      assert files[k] in files && line in files[k].lines;
    }
  }

  lemma OrderKeepsLines(file: DictionaryFile)
    requires IsFile(file)
    ensures forall line :: line in ReadOrder(file) <==> line in file.lines
  {
  }

  /** Loads one file after the other into an empty tree. */
  method Load(files: seq<DictionaryFile>) returns (trie: TernaryTree)
    requires forall f :: f in files ==> IsFile(f)
    ensures trie.Valid() && fresh(trie) && fresh(ReprOf(trie.root))
    ensures TreeOf(trie.root) == LoadedTree(files) && Stored(TreeOf(trie.root), Dictionary(files))
    ensures forall w :: Has(TreeOf(trie.root), w) <==> IsFoldedLine(files, w)
    ensures forall w :: Has(TreeOf(trie.root), w) ==> NoCapitals(w)
  {
    hide Has, Dictionary, Stored, InsertAll, IsFoldedLine, NoCapitals;
    trie := new TernaryTree();
    var k := 0;
    while k < |files|
      invariant 0 <= k <= |files|
      invariant trie.Valid() && fresh(trie) && fresh(ReprOf(trie.root))
      invariant TreeOf(trie.root) == LoadedTree(files[..k])
    {
      LinesFit(files[k]);
      assert files[..k + 1][..k] == files[..k];
      ReadDictionaryFile(files[k].lines, files[k].lineTot, trie);
      k := k + 1;
    }
    assert files[..|files|] == files;
    LoadedExactly(files);
    LoadedFolded(files);
  }

  lemma LoadedFolded(files: seq<DictionaryFile>)
    requires forall f :: f in files ==> IsFile(f)
    ensures forall w :: Has(LoadedTree(files), w) <==> IsFoldedLine(files, w)
    ensures forall w :: Has(LoadedTree(files), w) ==> NoCapitals(w)
  {
    LoadedExactly(files);
    hide Has, Dictionary, IsFoldedLine, NoCapitals;
    forall w {
      DictionaryFolds(files, w);
    }
  }

  lemma LinesFit(file: DictionaryFile)
    requires IsFile(file)
    ensures forall k :: 0 <= k < |file.lines| ==> IsLine(file.lines[k])
  {
  }

  // ----- The words that count ----------------------------------------------------------------------------

  /** The words of the dictionary that the lookups of the master's letters keep. */
  ghost function KeptWords(files: seq<DictionaryFile>, word: string): set<string>
    requires forall f :: f in files ==> IsFile(f)
  {
    set w | w in Dictionary(files) && Looked(LoadedTree(files), word, w)
  }

  /** The words of the dictionary that begin with a letter of the master. */
  ghost function WithInitials(dictionary: set<string>, word: string): set<string> {
    set w | w in dictionary && w != "" && w[0] in word
  }

  /** No letter of the master has so many words of one length that the keys of longer ones are overrun. */
  ghost predicate RoomForAll(dictionary: set<string>, word: string) {
    forall c :: c in word ==> RoomFor(dictionary, c)
  }

  /** At most 4096 words of each length for each letter of the master. */
  ghost predicate FewWords(dictionary: set<string>, word: string) {
    forall c, n: nat :: c in word ==> |OfInitialAndLength(dictionary, c, n)| <= 4096
  }

  lemma FewWordsHaveRoomForAll(dictionary: set<string>, word: string)
    requires FewWords(dictionary, word)
    ensures RoomForAll(dictionary, word)
  {
    forall c | c in word
      ensures RoomFor(dictionary, c)
    {
      FewWordsHaveRoom(dictionary, c);
    }
  }

  /** The kept words are exactly the stored ones that are looked up. */
  lemma KeptAreLooked(files: seq<DictionaryFile>, word: string)
    requires forall f :: f in files ==> IsFile(f)
    ensures forall w :: w in KeptWords(files, word) <==> Looked(LoadedTree(files), word, w)
  {
    LoadedExactly(files);
    forall w | Looked(LoadedTree(files), word, w)
      ensures w in Dictionary(files)
    {
      LetterFound(LoadedTree(files), w[0]);
    }
  }

  /** Every word that begins with a letter of the master is kept if and only if there is room for all of them. */
  lemma AllKeptIffRoomForAll(files: seq<DictionaryFile>, word: string)
    requires forall f :: f in files ==> IsFile(f)
    ensures KeptWords(files, word) == WithInitials(Dictionary(files), word)
            <==> RoomForAll(Dictionary(files), word)
  {
    var t, dictionary := LoadedTree(files), Dictionary(files);
    LoadedExactly(files);
    forall c | c in word
      ensures (forall w :: w in dictionary && [c] <= w ==> Kept(t, w)) <==> RoomFor(dictionary, c)
    {
      AllKeptIffRoomFor(t, dictionary, c);
    }
    hide Kept, RoomFor, Dictionary;
    assert forall c, w: string :: [c] <= w <==> w != "" && w[0] == c;
    if KeptWords(files, word) == WithInitials(dictionary, word) {
      forall c, w | c in word && w in dictionary && [c] <= w
        ensures Kept(t, w)
      {
        assert w in WithInitials(dictionary, word);
      }
    }
    if RoomForAll(dictionary, word) {
      forall w | w in WithInitials(dictionary, word)
        ensures w in KeptWords(files, word)
      {
        assert [w[0]] <= w;
      }
    }
  }

  /** An anagram only uses words that begin with a letter of the master. */
  lemma InitialsSuffice(dictionary: set<string>, word: string, exclude: set<string>, dupes: bool, p: string)
    requires forall w :: w in dictionary ==> w != "" && ' ' !in w
    ensures IsAnagram(WithInitials(dictionary, word), exclude, Letters(word), dupes, p)
            <==> IsAnagram(dictionary, exclude, Letters(word), dupes, p)
  {
    if ws :| AnagramWords(dictionary, exclude, Letters(word), dupes, ws) && p == Join(ws) {
      forall k | 0 <= k < |ws|
        ensures ws[k] in WithInitials(dictionary, word)
      {
        PartOfAll(ws, k);
        assert ws[k][0] in Letters(ws[k]);
        assert ws[k][0] in multiset(word);
      }
      assert AnagramWords(WithInitials(dictionary, word), exclude, Letters(word), dupes, ws);
    }
    if ws :| AnagramWords(WithInitials(dictionary, word), exclude, Letters(word), dupes, ws) && p == Join(ws) {
      assert AnagramWords(dictionary, exclude, Letters(word), dupes, ws);
    }
  }

  lemma {:induction false} PartOfAll(ws: seq<string>, k: nat)
    requires k < |ws|
    ensures Letters(ws[k]) <= AllLetters(ws)
    decreases |ws|
  {
    if k < |ws| - 1 {
      PartOfAll(ws[..|ws| - 1], k);
    }
  }

  // ----- The threads -------------------------------------------------------------------------------------

  /** Runs the threads one after the other, which is one of the interleavings their locks allow. */
  method RunThreads(word: string, subset: KeyMap, output: KeyMap, flags: Flags, cpuTot: nat, queue: PushLog)
    returns (ghost emitted: seq<string>)
    requires output.Valid() && subset != output && IsText(word) && cpuTot > 0
    requires Partials(subset.keys, Letters(word)) && MasterFits(Letters(word))
    requires |Letters(word)| <= 66
    modifies output, queue
    ensures output.Valid()
    ensures Delivered(emitted, flags, old(output.Keys()), output.Keys(), old(queue.texts), queue.texts)
    ensures Merges(emitted, Traces(subset.keys, Letters(word), flags.allowDupes, cpuTot, cpuTot))
  {
    hide Partials, Letters, MasterFits, Delivered, ThreadSearch, Phrases, Merges;
    ghost var words, letters := subset.keys, Letters(word);
    emitted := [];
    DeliveredNothing(flags, output.Keys(), queue.texts);
    MergesNext(words, letters, flags.allowDupes, cpuTot);
    var t := 0;
    while t < cpuTot
      invariant 0 <= t <= cpuTot && output.Valid() && subset.keys == words
      invariant Delivered(emitted, flags, old(output.Keys()), output.Keys(), old(queue.texts), queue.texts)
      invariant Merges(emitted, Traces(words, letters, flags.allowDupes, cpuTot, t))
    {
      ghost var keys, texts := output.Keys(), queue.texts;
      ghost var now := ThreadPhrases(words, letters, flags.allowDupes, t, cpuTot);
      CombineSubsetsFast(word, subset, output, flags, t, cpuTot, queue);
      DeliveredConcat(emitted, now, flags, old(output.Keys()), keys, output.Keys(),
                      old(queue.texts), texts, queue.texts);
      emitted, t := emitted + now, t + 1;
    }
  }

  lemma MergesNext(words: seq<string>, letters: multiset<char>, dupes: bool, threads: nat)
    requires Partials(words, letters)
    ensures Merges([], Traces(words, letters, dupes, threads, 0))
    ensures forall t, m :: 0 <= t < threads && Merges(m, Traces(words, letters, dupes, threads, t)) ==>
                             Merges(m + ThreadPhrases(words, letters, dupes, t, threads),
                                    Traces(words, letters, dupes, threads, t + 1))
  {
    hide Partials, ThreadPhrases;
    forall t, m | 0 <= t < threads && Merges(m, Traces(words, letters, dupes, threads, t))
      ensures Merges(m + ThreadPhrases(words, letters, dupes, t, threads),
                     Traces(words, letters, dupes, threads, t + 1))
    {
      AppendTrace(m, Traces(words, letters, dupes, threads, t), ThreadPhrases(words, letters, dupes, t, threads));
      assert Traces(words, letters, dupes, threads, t + 1) ==
             Traces(words, letters, dupes, threads, t) + [ThreadPhrases(words, letters, dupes, t, threads)];
    }
  }

  // ----- The result --------------------------------------------------------------------------------------

  /**
   The words that are looked up and the master are within what the counts and buffers of the program can
   hold. Other lines of the files need not be 7-bit text.
   */
  ghost predicate InputFits(files: seq<DictionaryFile>, word: string) {
    && (forall f :: f in files ==> IsFile(f))
    && (forall f, line :: f in files && line in f.lines && Lower(line) != "" && Lower(line)[0] in word ==>
          IsWord(line) && Fits(Letters(Lower(line))))
    && IsText(word) && MasterFits(Letters(word)) && |Letters(word)| <= 66
  }

  /** The words that are looked up can be counted. */
  lemma DictionaryWords(files: seq<DictionaryFile>, word: string)
    requires InputFits(files, word)
    ensures DictionaryFits(LoadedTree(files), word)
    ensures forall w :: w in KeptWords(files, word) ==> IsWord(w)
    ensures forall w :: w in Dictionary(files) ==> w != "" && ' ' !in w
  {
    LoadedExactly(files);
    hide Has, Fits, Letters, Kept;
    forall w | w in Dictionary(files)
      ensures w != "" && ' ' !in w && (w[0] in word ==> IsWord(w) && Fits(Letters(w)))
    {
      var f, line :| f in files && line in f.lines && w == Lower(line);
      LowerKeepsLine(line);
      if w[0] in word {
        LowerKeepsWord(line);
      }
    }
  }

  lemma LowerKeepsLine(line: string)
    requires IsLine(line) && ' ' !in line
    ensures Lower(line) != "" && ' ' !in Lower(line)
  {
  }

  lemma GatheredPartials(dictionary: set<string>, exclude: set<string>, letters: multiset<char>, subset: KeyMap)
    requires subset.Valid() && forall w :: w in dictionary ==> IsWord(w)
    requires forall w :: w in subset.Keys() <==> w in dictionary && Part(w, exclude, letters)
    ensures PartialsOf(subset.keys, dictionary, exclude, letters)
  {
    forall i | 0 <= i < |subset.keys|
      ensures IsWord(subset.keys[i]) && Letters(subset.keys[i]) < letters
    {
      assert subset.keys[i] in subset.Keys();
    }
    forall w
      ensures w in subset.keys <==> w in subset.Keys()
    {
    }
  }

  /** A phrase is an anagram of one word or of several, not both. */
  lemma OneOrSeveral(dictionary: set<string>, exclude: set<string>, letters: multiset<char>, dupes: bool, p: string)
    requires forall w :: w in dictionary ==> IsWord(w)
    ensures var one := p in dictionary && p !in exclude && Letters(p) == letters;
            var several := IsLongAnagram(dictionary, exclude, letters, dupes, p);
            (IsAnagram(dictionary, exclude, letters, dupes, p) <==> one || several) && !(one && several)
  {
    if p in dictionary && p !in exclude && Letters(p) == letters {
      assert AllLetters([p][..0]) == multiset{};
      assert AnagramWords(dictionary, exclude, letters, dupes, [p]) && p == Join([p]);
      forall ws | |ws| > 1
        ensures p != Join(ws)
      {
        JoinHasSpace(ws);
      }
    }
    if ws :| AnagramWords(dictionary, exclude, letters, dupes, ws) && |ws| == 1 && p == Join(ws) {
      assert AllLetters(ws[..0]) == multiset{};
    }
  }

  /** A dictionary file with `n` words of three letters and a longer one, in lower case already. */
  ghost function CrowdedFile(n: nat): DictionaryFile
    requires n <= 4160
  {
    DictionaryFile(seq(n, i requires 0 <= i < n => Triple(i)) + ["aaaa"], n + 1)
  }

  lemma CrowdedLines(n: nat)
    requires n <= 4160
    ensures IsFile(CrowdedFile(n))
    ensures forall line :: line in CrowdedFile(n).lines <==> line in Crowded(n)
    ensures forall line :: line in Crowded(n) ==> Lower(line) == line
  {
    assert Lower("aaaa") == "aaaa";
    hide Triple, Lower;
    var file := CrowdedFile(n);
    forall line
      ensures line in file.lines <==> line in Crowded(n)
    {
      if i: nat :| i < n && line == Triple(i) {
        assert file.lines[i] == line;
      }
      assert file.lines[n] == "aaaa";
    }
  }

  lemma CrowdedFileIsCrowded(n: nat)
    requires n <= 4160
    ensures IsFile(CrowdedFile(n)) && Dictionary([CrowdedFile(n)]) == Crowded(n)
  {
    CrowdedLines(n);
    hide Lower, Crowded, CrowdedFile, IsFile;
    assert [CrowdedFile(n)][0] == CrowdedFile(n);
  }

  lemma CrowdedWords(n: nat)
    requires n <= 4160
    ensures forall w :: w in Crowded(n) ==> IsWord(w) && |w| <= 4
  {
  }

  lemma ShortWordFits(w: string)
    requires IsWord(w) && |w| <= 4
    ensures Fits(Letters(w)) && MasterFits(Letters(w)) && |Letters(w)| <= 66
  {
    LettersOfWord(w);
    SizeOfDistinct(w);
    assert forall ch :: multiset(w)[ch] <= |multiset(w)|;
  }

  lemma {:induction false} SizeOfDistinct(w: string)
    ensures |Distinct(multiset(w))| <= |w|
    decreases |w|
  {
    if w == "" {
      assert Distinct(multiset(w)) == {};
    } else {
      var n := |w| - 1;
      SizeOfDistinct(w[..n]);
      assert w == w[..n] + [w[n]];
      assert Distinct(multiset(w)) == Distinct(multiset(w[..n])) + {w[n]};
    }
  }

  /** The crowded file and one of its words are within the capacities. */
  lemma CrowdedFits(n: nat, word: string)
    requires n <= 4160 && word in Crowded(n)
    ensures InputFits([CrowdedFile(n)], word)
  {
    hide IsWord, IsText, Fits, MasterFits, Letters, Lower, Crowded, CrowdedFile, IsFile;
    CrowdedWords(n);
    ShortWordFits(word);
    WordIsText(word);
    CrowdedLines(n);
    forall line | line in CrowdedFile(n).lines
      ensures IsWord(line) && Fits(Letters(Lower(line)))
    {
      ShortWordFits(line);
    }
  }

  /** With 4097 words of three letters and a longer one in the file, some word is not found as its own anagram. */
  lemma CrowdedFileLosesAnagram(n: nat, dupes: bool) returns (word: string)
    requires 4096 < n <= 4160
    ensures InputFits([CrowdedFile(n)], word)
    ensures IsAnagram(Dictionary([CrowdedFile(n)]), {}, Letters(word), dupes, word)
    ensures !IsAnagram(KeptWords([CrowdedFile(n)], word), {}, Letters(word), dupes, word)
  {
    hide Kept, Crowded, Dictionary;
    var files := [CrowdedFile(n)];
    CrowdedFileIsCrowded(n);
    LoadedExactly(files);
    CrowdedLosesWordIff(LoadedTree(files), n);
    word :| word in Crowded(n) && "a" <= word && !Kept(LoadedTree(files), word);
    CrowdedWords(n);
    CrowdedFits(n, word);
    OneOrSeveral(Dictionary(files), {}, Letters(word), dupes, word);
    OneOrSeveral(KeptWords(files, word), {}, Letters(word), dupes, word);
    forall ws | |ws| > 1
      ensures word != Join(ws)
    {
      JoinHasSpace(ws);
    }
  }

  /** The list holds every anagram exactly once and nothing else. */
  ghost predicate EachOnce(list: seq<string>, dictionary: set<string>, exclude: set<string>,
                           letters: multiset<char>, dupes: bool)
  {
    forall p :: multiset(list)[p] == if IsAnagram(dictionary, exclude, letters, dupes, p) then 1 else 0
  }

  /** Whatever the interleaving of the threads, gathered and combined phrases together are each anagram once. */
  lemma AnyInterleavingExact(dictionary: set<string>, exclude: set<string>, letters: multiset<char>, dupes: bool,
                             words: seq<string>, threads: nat, found: seq<string>, m: seq<string>)
    requires forall w :: w in dictionary ==> IsWord(w)
    requires PartialsOf(words, dictionary, exclude, letters) && threads > 0
    requires NoRepeats(found) && forall w :: w in found <==> w in dictionary && Full(w, exclude, letters)
    requires Merges(m, Traces(words, letters, dupes, threads, threads))
    ensures EachOnce(found + m, dictionary, exclude, letters, dupes)
  {
    hide AnagramWords, Merges, Partials, IsAnagram, IsLongAnagram;
    forall p
      ensures multiset(found + m)[p] == if IsAnagram(dictionary, exclude, letters, dupes, p) then 1 else 0
    {
      NoRepeatsCount(found, p);
      InterleavingExact(words, dictionary, exclude, letters, dupes, threads, m, p);
      OneOrSeveral(dictionary, exclude, letters, dupes, p);
      assert multiset(found + m)[p] == multiset(found)[p] + multiset(m)[p];
    }
  }

  /** With room for all words what is found over the kept words is found over the dictionary. */
  lemma RoomMakesExact(files: seq<DictionaryFile>, word: string, exclude: set<string>, dupes: bool, list: seq<string>)
    requires InputFits(files, word) && RoomForAll(Dictionary(files), word)
    requires EachOnce(list, KeptWords(files, word), exclude, Letters(word), dupes)
    ensures EachOnce(list, Dictionary(files), exclude, Letters(word), dupes)
  {
    hide IsAnagram, RoomForAll, Dictionary, Letters;
    AllKeptIffRoomForAll(files, word);
    DictionaryWords(files, word);
    forall p {
      InitialsSuffice(Dictionary(files), word, exclude, dupes, p);
    }
  }

  /**
   Gathers, then combines. `words` are the partial words gathered, `found` the one-word anagrams and `emitted`
   the longer ones in the order in which the threads inserted them.
   */
  method GetAnagrams(t: TernaryTree, word: string, anagrams: KeyMap, exclude: KeyMap, flags: Flags, cpuTot: nat,
                     queue: PushLog, ghost dictionary: set<string>)
    returns (ghost found: seq<string>, ghost words: seq<string>, ghost emitted: seq<string>)
    requires t.Valid() && t.maxDiff == 0 && anagrams.Valid() && anagrams != exclude && cpuTot > 0
    requires IsText(word) && MasterFits(Letters(word)) && |Letters(word)| <= 66
    requires DictionaryFits(TreeOf(t.root), word) && forall w :: w in dictionary ==> IsWord(w)
    requires forall w :: w in dictionary <==> Looked(TreeOf(t.root), word, w)
    modifies t`tieHwm, anagrams, queue
    ensures anagrams.Valid() && NoRepeats(found) && FoundInOrder(TreeOf(t.root), word, found)
    ensures forall w :: w in found <==>
                          w in dictionary && Full(w, exclude.Keys(), Letters(word)) && w !in old(anagrams.Keys())
    ensures PartialsOf(words, dictionary, exclude.Keys(), Letters(word))
    ensures Merges(emitted, Traces(words, Letters(word), flags.allowDupes, cpuTot, cpuTot))
    ensures Delivered(found + emitted, flags, old(anagrams.Keys()), anagrams.Keys(), old(queue.texts), queue.texts)
  {
    hide Has, Fits, Letters, MasterFits, DictionaryFits, Ordered, Depth, Full, Part, Partials, Delivered, Merges,
         Looked, NoRepeats, KeyMap.Keys, IsWord, FoundInOrder;
    var subset := new KeyMap();
    var charsCompleted := new bool[DOMAIN_SIZE](_ => false);
    found := Gather(t, word, anagrams, subset, exclude, flags, queue, charsCompleted);
    ghost var keys, texts := anagrams.Keys(), queue.texts;
    GatheredPartials(dictionary, exclude.Keys(), Letters(word), subset);
    words := subset.keys;
    emitted := RunThreads(word, subset, anagrams, flags, cpuTot, queue);
    DeliveredConcat(found, emitted, flags, old(anagrams.Keys()), keys, anagrams.Keys(),
                    old(queue.texts), texts, queue.texts);
  }

  /** Whatever the schedule of the threads, what is found is exact over the kept words, and so over the dictionary. */
  lemma AnySchedule(files: seq<DictionaryFile>, word: string, exclude: set<string>, dupes: bool, words: seq<string>,
                    threads: nat, found: seq<string>)
    requires InputFits(files, word) && threads > 0
    requires PartialsOf(words, KeptWords(files, word), exclude, Letters(word))
    requires NoRepeats(found)
    requires forall w :: w in found <==> w in KeptWords(files, word) && Full(w, exclude, Letters(word))
    ensures forall m :: Merges(m, Traces(words, Letters(word), dupes, threads, threads)) ==>
                          EachOnce(found + m, KeptWords(files, word), exclude, Letters(word), dupes)
    ensures RoomForAll(Dictionary(files), word) ==>
              forall m :: Merges(m, Traces(words, Letters(word), dupes, threads, threads)) ==>
                            EachOnce(found + m, Dictionary(files), exclude, Letters(word), dupes)
    ensures FewWords(Dictionary(files), word) ==> RoomForAll(Dictionary(files), word)
  {
    DictionaryWords(files, word);
    if FewWords(Dictionary(files), word) {
      FewWordsHaveRoomForAll(Dictionary(files), word);
    }
    hide InputFits, Dictionary, KeptWords, Letters, Full, Partials, Traces, Merges, EachOnce, RoomForAll;
    forall m | Merges(m, Traces(words, Letters(word), dupes, threads, threads))
      ensures EachOnce(found + m, KeptWords(files, word), exclude, Letters(word), dupes)
      ensures RoomForAll(Dictionary(files), word) ==>
                EachOnce(found + m, Dictionary(files), exclude, Letters(word), dupes)
    {
      AnyInterleavingExact(KeptWords(files, word), exclude, Letters(word), dupes, words, threads, found, m);
      if RoomForAll(Dictionary(files), word) {
        RoomMakesExact(files, word, exclude, dupes, found + m);
      }
    }
  }

  /**
   Finds the anagrams of `word`. `found` are the one-word anagrams of the gather phase, `traces` what each
   thread inserts, and `emitted` the order in which that was done. In this and any other order each anagram
   over the kept words is delivered exactly once and nothing else: into the map, or line by line to the queue
   when output is direct. When no lookup loses a word these are the anagrams over the whole dictionary.
   */
  method FindAnagrams(files: seq<DictionaryFile>, word: string, exclude: KeyMap, flags: Flags, cpuTot: nat)
    returns (anagrams: KeyMap, queue: PushLog, ghost found: seq<string>, ghost traces: seq<seq<string>>,
             ghost emitted: seq<string>)
    requires InputFits(files, word) && cpuTot > 0
    ensures anagrams.Valid() && |traces| == cpuTot && Merges(emitted, traces)
    ensures FoundInOrder(LoadedTree(files), word, found)
    ensures forall t :: 0 <= t < cpuTot ==> PhrasesInOrder(traces[t])
    ensures forall m :: Merges(m, traces) ==>
                          EachOnce(found + m, KeptWords(files, word), exclude.Keys(), Letters(word), flags.allowDupes)
    ensures RoomForAll(Dictionary(files), word) ==>
              forall m :: Merges(m, traces) ==>
                            EachOnce(found + m, Dictionary(files), exclude.Keys(), Letters(word), flags.allowDupes)
    ensures FewWords(Dictionary(files), word) ==>
              forall m :: Merges(m, traces) ==>
                            EachOnce(found + m, Dictionary(files), exclude.Keys(), Letters(word), flags.allowDupes)
    ensures flags.outputDirectly ==> queue.texts == Lines(found + emitted)
    ensures !flags.outputDirectly ==> queue.texts == [] && forall p :: p in anagrams.Keys() <==> p in found + emitted
    ensures forall line :: line in queue.texts ==> |line| <= 132
  {
    hide Has, Fits, Letters, MasterFits, Dictionary, DictionaryFits, Ordered, Depth, Full, Partials, Delivered,
         Merges, Stored, EachOnce, RoomForAll, FewWords, IsFoldedLine, NoCapitals, Kept, KeptWords, Looked,
         NoRepeats, IsWord, FoundInOrder, PhrasesInOrder, Traces;
    var trie := Load(files);
    trie.maxDiff := 0;
    DictionaryWords(files, word);
    KeptAreLooked(files, word);
    anagrams := new KeyMap();
    queue := new PushLog();
    ghost var words;
    found, words, emitted := GetAnagrams(trie, word, anagrams, exclude, flags, cpuTot, queue, KeptWords(files, word));
    traces := Traces(words, Letters(word), flags.allowDupes, cpuTot, cpuTot);
    TracesInOrder(words, Letters(word), flags.allowDupes, cpuTot);
    AnySchedule(files, word, exclude.Keys(), flags.allowDupes, words, cpuTot, found);
    DeliveredResult(found + emitted, flags, anagrams.Keys(), queue.texts);
    LinesFitSlots(files, word, exclude.Keys(), flags.allowDupes, found + emitted);
  }

  /** With a master of at most 66 letters each line of output has at most 132 characters, and so fits a slot. */
  lemma LinesFitSlots(files: seq<DictionaryFile>, word: string, exclude: set<string>, dupes: bool, list: seq<string>)
    requires InputFits(files, word) && EachOnce(list, KeptWords(files, word), exclude, Letters(word), dupes)
    ensures forall line :: line in Lines(list) ==> |line| <= 132 < 256
  {
    DictionaryWords(files, word);
    forall p | p in list
      ensures |p| + 1 <= 132
    {
      assert multiset(list)[p] > 0;
      var ws :| AnagramWords(KeptWords(files, word), exclude, Letters(word), dupes, ws) && p == Join(ws);
      hide Letters, KeptWords, IsText;
      JoinLength(ws);
    }
  }

  lemma DeliveredResult(delivered: seq<string>, flags: Flags, keys: set<string>, texts: seq<string>)
    requires Delivered(delivered, flags, {}, keys, [], texts)
    ensures flags.outputDirectly ==> texts == Lines(delivered)
    ensures !flags.outputDirectly ==> texts == [] && forall p :: p in keys <==> p in delivered
  {
  }

  /**
   With one thread and direct output the list is also what gets printed: at any moment a beginning of it,
   no anagram twice, and when everything was pushed and printed each anagram once.
   */
  lemma OneThreadPrints(list: seq<string>, dictionary: set<string>, exclude: set<string>, letters: multiset<char>,
                        dupes: bool, steps: seq<Step>)
    requires EachOnce(list, dictionary, exclude, letters, dupes)
    requires Possible(Initial(1), steps) && Calls(steps) <= Lines(list)
    ensures var s := Execute(Initial(1), steps);
            && s.printed + InFlight(s) + Queued(s) <= Lines(list)
            && (forall p :: multiset(s.printed)[p + "\n"] <=
                            if IsAnagram(dictionary, exclude, letters, dupes, p) then 1 else 0)
            && (Calls(steps) == Lines(list) && Pending(s) == InFlight(s) == Queued(s) == [] ==>
                  forall p :: multiset(s.printed)[p + "\n"] ==
                              if IsAnagram(dictionary, exclude, letters, dupes, p) then 1 else 0)
  {
    hide IsAnagram, Execute, Possible, InFlight, Queued, Pending, Calls;
    var s := Execute(Initial(1), steps);
    OneProducerPrints(Lines(list), steps);
    assert Lines(list) == s.printed + Lines(list)[|s.printed|..];
    forall p
      ensures multiset(Lines(list))[p + "\n"] == if IsAnagram(dictionary, exclude, letters, dupes, p) then 1 else 0
    {
      LinesCount(list, p);
    }
  }

  /** And every such run can be completed to one that pushes the whole list and has all of it printed. */
  lemma OneThreadCompletes(list: seq<string>, dictionary: set<string>, exclude: set<string>,
                           letters: multiset<char>, dupes: bool, steps: seq<Step>) returns (more: seq<Step>)
    requires EachOnce(list, dictionary, exclude, letters, dupes)
    requires Possible(Initial(1), steps) && Calls(steps) <= Lines(list)
    ensures Possible(Initial(1), steps + more) && Calls(steps + more) == Lines(list)
    ensures var s := Execute(Initial(1), steps + more);
            && s.printed == Lines(list)
            && forall p :: multiset(s.printed)[p + "\n"] ==
                           if IsAnagram(dictionary, exclude, letters, dupes, p) then 1 else 0
  {
    hide IsAnagram, Execute, Possible, Calls, Initial, Lines;
    more := EveryRunCompletes(Lines(list), steps);
    forall p {
      LinesCount(list, p);
    }
  }

  lemma {:induction false} LinesCount(list: seq<string>, p: string)
    ensures multiset(Lines(list))[p + "\n"] == multiset(list)[p]
    decreases |list|
  {
    if list == [] {
      assert Lines(list) == [];
    } else {
      var n := |list| - 1;
      LinesCount(list[..n], p);
      assert list == list[..n] + [list[n]];
      assert Lines(list) == Lines(list[..n]) + [list[n] + "\n"];
      assert p + "\n" == list[n] + "\n" <==> p == list[n] by {
        assert (p + "\n")[..|p|] == p && (list[n] + "\n")[..|list[n]|] == list[n];
      }
    }
  }
}
