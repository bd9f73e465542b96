/**
 The combiner on the heap: the recursive search with its shared scratch hashes, and the share of one thread.
 Both are proved to deliver exactly what the search on values finds.
 */
module Combines {
  import opened KeyMaps
  import opened OccupancyHashes
  import opened Searches
  import opened Text

  datatype Flags = Flags(allowDupes: bool, outputDirectly: bool)

  /** The texts handed to the output queue, oldest first. */
  class PushLog {
    var texts: seq<string>

    constructor ()
      ensures texts == []
    {
      texts := [];
    }

    method Push(text: string)
      modifies this
      ensures texts == old(texts) + [text]
    {
      texts := texts + [text];
    }
  }

  /** The phrases at the given positions, in order. */
  ghost function Phrases(words: seq<string>, list: seq<seq<nat>>): seq<string> {
    seq(|list|, k requires 0 <= k < |list| => Phrase(words, list[k]))
  }

  /** The same phrases as lines of output. */
  ghost function Lines(phrases: seq<string>): seq<string> {
    seq(|phrases|, k requires 0 <= k < |phrases| => phrases[k] + "\n")
  }

  ghost function Elements(phrases: seq<string>): set<string> {
    set p | p in phrases
  }

  /** The phrases went to the queue as lines or into the output map, depending on the flags. */
  ghost predicate Delivered(phrases: seq<string>, flags: Flags, keysBefore: set<string>, keys: set<string>,
                            textsBefore: seq<string>, texts: seq<string>)
  {
    if flags.outputDirectly then keys == keysBefore && texts == textsBefore + Lines(phrases)
    else keys == keysBefore + Elements(phrases) && texts == textsBefore
  }

  lemma DeliveredConcat(p: seq<string>, q: seq<string>, flags: Flags, k0: set<string>, k1: set<string>,
                        k2: set<string>, t0: seq<string>, t1: seq<string>, t2: seq<string>)
    requires Delivered(p, flags, k0, k1, t0, t1) && Delivered(q, flags, k1, k2, t1, t2)
    ensures Delivered(p + q, flags, k0, k2, t0, t2)
  {
  }

  // ----- The scratch hashes ------------------------------------------------------------------------------

  /** Everything the scratch hashes from `depth` on consist of. */
  ghost function BuffersFrom(buffers: seq<OccupancyHash>, depth: nat): set<object> {
    set k, o | depth <= k < |buffers| && o in buffers[k].Repr() :: o
  }

  /** The buffers from `depth` on consist of `rest`, share no memory, and are well formed. */
  ghost predicate BuffersValid(buffers: seq<OccupancyHash>, depth: nat, rest: set<object>)
    reads rest
  {
    && rest == BuffersFrom(buffers, depth)
    && (forall j, k :: depth <= j < k < |buffers| ==> buffers[j].Repr() !! buffers[k].Repr())
    && (forall k :: depth <= k < |buffers| ==> buffers[k].Valid())
  }

  /** The hashes of a call share no memory: the master, the two candidates, the buffers still unused. */
  ghost predicate Separate(master: set<object>, a: set<object>, b: set<object>, rest: set<object>,
                           others: set<object>)
  {
    && master !! b && a !! b
    && master !! rest && a !! rest && b !! rest
    && others !! master && others !! a && others !! b && others !! rest
  }

  /** The buffers below the one at `depth`. */
  lemma BuffersSplit(buffers: seq<OccupancyHash>, depth: nat, rest: set<object>) returns (below: set<object>)
    requires depth < |buffers| && BuffersValid(buffers, depth, rest)
    ensures buffers[depth].Valid() && BuffersValid(buffers, depth + 1, below)
    ensures rest == buffers[depth].Repr() + below && buffers[depth].Repr() !! below
  {
    below := BuffersFrom(buffers, depth + 1);
    assert forall o :: o in buffers[depth].Repr() ==> o in BuffersFrom(buffers, depth);
  }

  lemma BuffersJoin(buffers: seq<OccupancyHash>, depth: nat, below: set<object>)
    requires depth < |buffers| && buffers[depth].Valid() && BuffersValid(buffers, depth + 1, below)
    requires buffers[depth].Repr() !! below
    ensures BuffersValid(buffers, depth, buffers[depth].Repr() + below)
  {
  }

  /** Sums of two parts of the master can be counted. */
  ghost predicate MasterFits(master: multiset<char>) {
    |Distinct(master)| <= 40 && forall ch :: master[ch] <= 63
  }

  lemma PartsFit(master: multiset<char>, x: multiset<char>, y: multiset<char>)
    requires MasterFits(master) && x <= master && y <= master
    ensures Fits(x + y) && Fits(x) && Fits(y)
  {
    DistinctMonotone(x, master);
    DistinctMonotone(y, master);
    assert Distinct(x + y) <= Distinct(master);
    SubsetSize(Distinct(x + y), Distinct(master));
  }

  /** Counts `text` into the blanked scratch hash `b`, on top of it the phrase so far. */
  method CountCandidate(b: OccupancyHash, a: OccupancyHash, text: string, ghost master: multiset<char>)
    requires a.Valid() && b.Valid() && a.Repr() !! b.Repr()
    requires IsText(text) && Letters(text) <= master && a.Contents <= master && MasterFits(master)
    modifies b.Repr()
    ensures b.Valid() && b.Contents == a.Contents + Letters(text)
  {
    PartsFit(master, Letters(text), a.Contents);
    b.Clear();
    assert multiset{} + Letters(text) == Letters(text);
    b.GetCharCountMap(text);
    assert Letters(text) + a.Contents == a.Contents + Letters(text);
    b.Add(a);
  }

  method Recount(hash: OccupancyHash, text: string)
    requires hash.Valid() && IsText(text) && Fits(Letters(text))
    modifies hash.Repr()
    ensures hash.Valid() && hash.Contents == Letters(text)
  {
    hash.Clear();
    assert multiset{} + Letters(text) == Letters(text);
    hash.GetCharCountMap(text);
  }

  /** Hands out one complete anagram. */
  method Deliver(phrase: string, output: KeyMap, flags: Flags, queue: PushLog)
    requires output.Valid()
    modifies output, queue
    ensures output.Valid()
    ensures Delivered([phrase], flags, old(output.Keys()), output.Keys(), old(queue.texts), queue.texts)
  {
    if flags.outputDirectly {
      queue.Push(phrase + "\n");
    } else {
      output.Put(phrase);
    }
  }

  // ----- The search --------------------------------------------------------------------------------------

  /** A call at `depth` stands at the phrase `word` with next words from position `i` on. */
  ghost predicate StandsAt(word: string, words: seq<string>, master: multiset<char>, dupes: bool,
                           prefix: seq<nat>, i: nat, depth: nat)
  {
    && Partials(words, master) && MasterFits(master)
    && Partial(words, master, prefix) && |prefix| == depth + 1 && prefix[depth] <= i <= |words|
    && word == Phrase(words, prefix)
    && InBounds(words, master, dupes, prefix, i)
  }

  /** The phrases the search finds from where a call stands. */
  ghost function FoundFrom(word: string, words: seq<string>, master: multiset<char>, dupes: bool,
                           prefix: seq<nat>, i: nat, depth: nat): seq<string>
    requires StandsAt(word, words, master, dupes, prefix, i, depth)
  {
    Phrases(words, Search(words, master, dupes, prefix, i))
  }

  /** The phrases it finds with the word at position `i` next. */
  ghost function FoundWith(word: string, words: seq<string>, master: multiset<char>, dupes: bool,
                           prefix: seq<nat>, i: nat, depth: nat): seq<string>
    requires StandsAt(word, words, master, dupes, prefix, i, depth) && i < |words|
  {
    Phrases(words, Step(words, master, dupes, prefix, i))
  }

  /**
   Extends the phrase `word` by words of `subset` from `start` on. `a` holds the letters of the phrase; a
   call writes nothing but the scratch hash `b`, the buffers from its depth on, and what it delivers.
   */
  method CombineSubsetsRecurseFast(word: string, subset: KeyMap, output: KeyMap, master: OccupancyHash,
                                   a: OccupancyHash, b: OccupancyHash, buffers: seq<OccupancyHash>, start: nat,
                                   flags: Flags, queue: PushLog, depth: nat,
                                   ghost words: seq<string>, ghost letters: multiset<char>, ghost prefix: seq<nat>,
                                   ghost rest: set<object>)
    requires output.Valid() && subset != output && subset.keys == words
    requires master.Valid() && a.Valid() && b.Valid() && BuffersValid(buffers, depth, rest)
    requires Separate(master.Repr(), a.Repr(), b.Repr(), rest, {subset, output, queue}) && |buffers| == BUFFERS
    requires master.Contents == letters && a.Contents == Total(words, prefix)
    requires StandsAt(word, words, letters, flags.allowDupes, prefix, start, depth)
    modifies output, queue, b.Repr(), rest
    ensures output.Valid() && b.Valid() && BuffersValid(buffers, depth, rest)
    ensures Delivered(FoundFrom(word, words, letters, flags.allowDupes, prefix, start, depth), flags,
                      old(output.Keys()), output.Keys(), old(queue.texts), queue.texts)
    decreases |letters| - |Total(words, prefix)|, |words| - start, 1
  {
    hide Partials, Partial, InBounds, Total, Phrase, Delivered, FoundFrom, FoundWith, StandsAt,
         OccupancyHash.Valid, BuffersFrom, BuffersValid;
    ghost var done: seq<string> := [];
    DeliveredNothing(flags, output.Keys(), queue.texts);
    var i := start;
    StandsNext(word, words, letters, flags.allowDupes, prefix, i, depth);
    while i < |subset.keys|
      invariant start <= i <= |words| && subset.keys == words
      invariant output.Valid() && b.Valid() && BuffersValid(buffers, depth, rest)
      invariant a.Valid() && master.Valid() && a.Contents == Total(words, prefix) && master.Contents == letters
      invariant StandsAt(word, words, letters, flags.allowDupes, prefix, i, depth)
      invariant done + FoundFrom(word, words, letters, flags.allowDupes, prefix, i, depth) ==
                FoundFrom(word, words, letters, flags.allowDupes, prefix, start, depth)
      invariant Delivered(done, flags, old(output.Keys()), output.Keys(), old(queue.texts), queue.texts)
    {
      ghost var keys, texts := output.Keys(), queue.texts;
      ghost var now := FoundWith(word, words, letters, flags.allowDupes, prefix, i, depth);
      StandsNext(word, words, letters, flags.allowDupes, prefix, i, depth);
      FoundGoesOn(word, words, letters, flags.allowDupes, prefix, i, depth);
      TryWord(word, subset, output, master, a, b, buffers, i, flags, queue, depth, words, letters, prefix, rest);
      DeliveredConcat(done, now, flags, old(output.Keys()), keys, output.Keys(),
                      old(queue.texts), texts, queue.texts);
      done, i := done + now, i + 1;
    }
    FoundEnds(word, words, letters, flags.allowDupes, prefix, depth);
    assert done + [] == done;
  }

  /** One round of the loop: the word at position `i` next. */
  method TryWord(word: string, subset: KeyMap, output: KeyMap, master: OccupancyHash,
                 a: OccupancyHash, b: OccupancyHash, buffers: seq<OccupancyHash>, i: nat,
                 flags: Flags, queue: PushLog, depth: nat,
                 ghost words: seq<string>, ghost letters: multiset<char>, ghost prefix: seq<nat>,
                 ghost rest: set<object>)
    requires output.Valid() && subset != output && subset.keys == words
    requires master.Valid() && a.Valid() && b.Valid() && BuffersValid(buffers, depth, rest)
    requires Separate(master.Repr(), a.Repr(), b.Repr(), rest, {subset, output, queue}) && |buffers| == BUFFERS
    requires master.Contents == letters && a.Contents == Total(words, prefix) && i < |words|
    requires StandsAt(word, words, letters, flags.allowDupes, prefix, i, depth)
    modifies output, queue, b.Repr(), rest
    ensures output.Valid() && b.Valid() && BuffersValid(buffers, depth, rest)
    ensures Delivered(FoundWith(word, words, letters, flags.allowDupes, prefix, i, depth), flags,
                      old(output.Keys()), output.Keys(), old(queue.texts), queue.texts)
    decreases |letters| - |Total(words, prefix)|, |words| - i, 0
  {
    hide Partials, Partial, InBounds, Total, Phrase, Letters, Delivered, FoundFrom, FoundWith, StandsAt,
         MasterFits, Fits, OccupancyHash.Valid, BuffersFrom, BuffersValid;
    StepCases(word, words, letters, flags.allowDupes, prefix, i, depth);
    DeliveredNothing(flags, output.Keys(), queue.texts);
    if !flags.allowDupes && subset.keys[i] == word {
      return;
    }
    var outputPhrase := word + " " + subset.keys[i];
    CountCandidate(b, a, subset.keys[i], letters);
    var comparison := b.Compare(master);
    if comparison == 0 {
      Deliver(outputPhrase, output, flags, queue);
    } else if comparison < 0 {
      StandsDeeper(word, words, letters, flags.allowDupes, prefix, i, depth);
      GoDeeper(outputPhrase, subset, output, master, b, buffers, i, flags, queue, depth, words, letters,
               prefix + [i], rest);
    }
  }

  /** Recurses with the buffer of this depth, which is counted afresh from the text of the phrase. */
  method GoDeeper(phrase: string, subset: KeyMap, output: KeyMap, master: OccupancyHash, b: OccupancyHash,
                  buffers: seq<OccupancyHash>, i: nat, flags: Flags, queue: PushLog, depth: nat,
                  ghost words: seq<string>, ghost letters: multiset<char>, ghost next: seq<nat>,
                  ghost rest: set<object>)
    requires output.Valid() && subset != output && subset.keys == words
    requires master.Valid() && b.Valid() && BuffersValid(buffers, depth, rest)
    requires Separate(master.Repr(), {}, b.Repr(), rest, {subset, output, queue})
    requires depth < |buffers| == BUFFERS && master.Contents == letters
    requires StandsAt(phrase, words, letters, flags.allowDupes, next, i, depth + 1)
    modifies output, queue, b.Repr(), rest
    ensures output.Valid() && b.Valid() && BuffersValid(buffers, depth, rest)
    ensures Delivered(FoundFrom(phrase, words, letters, flags.allowDupes, next, i, depth + 1), flags,
                      old(output.Keys()), output.Keys(), old(queue.texts), queue.texts)
    decreases |letters| - |Total(words, next)|, |words| - i, 2
  {
    hide Partials, Partial, InBounds, Total, Phrase, Letters, Delivered, FoundFrom, FoundWith, StandsAt,
         MasterFits, Fits, OccupancyHash.Valid, BuffersFrom, BuffersValid;
    PhraseCounts(phrase, words, letters, flags.allowDupes, next, i, depth + 1);
    ghost var below := BuffersSplit(buffers, depth, rest);
    Recount(buffers[depth], phrase);
    CombineSubsetsRecurseFast(phrase, subset, output, master, buffers[depth], b, buffers, i, flags, queue,
                              depth + 1, words, letters, next, below);
    BuffersJoin(buffers, depth, below);
  }

  lemma StandsNext(word: string, words: seq<string>, letters: multiset<char>, dupes: bool, prefix: seq<nat>,
                   i: nat, depth: nat)
    requires StandsAt(word, words, letters, dupes, prefix, i, depth)
    ensures i <= |words|
    ensures i < |words| ==> StandsAt(word, words, letters, dupes, prefix, i + 1, depth)
  {
  }

  lemma FoundEnds(word: string, words: seq<string>, letters: multiset<char>, dupes: bool, prefix: seq<nat>,
                  depth: nat)
    requires StandsAt(word, words, letters, dupes, prefix, |words|, depth)
    ensures FoundFrom(word, words, letters, dupes, prefix, |words|, depth) == []
  {
  }

  lemma FoundGoesOn(word: string, words: seq<string>, letters: multiset<char>, dupes: bool, prefix: seq<nat>,
                    i: nat, depth: nat)
    requires StandsAt(word, words, letters, dupes, prefix, i, depth) && i < |words|
    requires StandsAt(word, words, letters, dupes, prefix, i + 1, depth)
    ensures FoundFrom(word, words, letters, dupes, prefix, i, depth) ==
            FoundWith(word, words, letters, dupes, prefix, i, depth)
            + FoundFrom(word, words, letters, dupes, prefix, i + 1, depth)
  {
    hide Phrase, Total, Partials, NonDecreasing;
    PhrasesConcat(words, Step(words, letters, dupes, prefix, i), Search(words, letters, dupes, prefix, i + 1));
  }

  lemma PhrasesConcat(words: seq<string>, a: seq<seq<nat>>, b: seq<seq<nat>>)
    ensures Phrases(words, a + b) == Phrases(words, a) + Phrases(words, b)
  {
  }

  lemma PhrasesOfNothing(words: seq<string>)
    ensures Phrases(words, []) == []
  {
  }

  lemma DeliveredNothing(flags: Flags, keys: set<string>, texts: seq<string>)
    ensures Delivered([], flags, keys, keys, texts, texts)
  {
  }

  /** What the comparison of the next phrase with the master decides. */
  lemma StepCases(word: string, words: seq<string>, letters: multiset<char>, dupes: bool, prefix: seq<nat>,
                  i: nat, depth: nat)
    requires StandsAt(word, words, letters, dupes, prefix, i, depth) && i < |words|
    ensures IsText(words[i]) && Letters(words[i]) <= letters && Total(words, prefix) <= letters
    ensures MasterFits(letters) && Total(words, prefix + [i]) == Total(words, prefix) + Letters(words[i])
    ensures FoundWith(word, words, letters, dupes, prefix, i, depth) ==
            if !dupes && words[i] == word then []
            else if Total(words, prefix + [i]) == letters then [word + " " + words[i]]
            else if Total(words, prefix + [i]) < letters then
              StandsDeeper(word, words, letters, dupes, prefix, i, depth);
              FoundFrom(word + " " + words[i], words, letters, dupes, prefix + [i], i, depth + 1)
            else []
  {
    hide Phrase, Total, Letters, NonDecreasing, InBounds, MasterFits;
    NextPhrase(words, letters, prefix, i);
    Extend(words, letters, prefix, i);
  }

  /** Where the search stands after going one level deeper. */
  lemma StandsDeeper(word: string, words: seq<string>, letters: multiset<char>, dupes: bool, prefix: seq<nat>,
                     i: nat, depth: nat)
    requires StandsAt(word, words, letters, dupes, prefix, i, depth) && i < |words|
    requires (dupes || words[i] != word) && Total(words, prefix + [i]) < letters
    ensures depth < BUFFERS
    ensures var next, phrase := prefix + [i], word + " " + words[i];
            && StandsAt(phrase, words, letters, dupes, next, i, depth + 1)
            && |letters| - |Total(words, prefix)| > |letters| - |Total(words, next)| >= 0
  {
    hide Phrase, Total, Letters, NonDecreasing, MasterFits, Fits;
    NextPhrase(words, letters, prefix, i);
    Extend(words, letters, prefix, i);
  }

  /** The text of the phrase a call stands at can be counted, and its letters are those of its words. */
  lemma PhraseCounts(word: string, words: seq<string>, letters: multiset<char>, dupes: bool, prefix: seq<nat>,
                     i: nat, depth: nat)
    requires StandsAt(word, words, letters, dupes, prefix, i, depth)
    ensures IsText(word) && Letters(word) == Total(words, prefix) && Fits(Letters(word))
  {
    hide Join, Letters, AllLetters, MasterFits, Fits, InBounds;
    JoinIsText(Pick(words, prefix));
    LettersOfJoin(Pick(words, prefix));
    PartsFit(letters, Total(words, prefix), Total(words, prefix));
  }

  /** The next phrase and its letters. */
  lemma NextPhrase(words: seq<string>, master: multiset<char>, prefix: seq<nat>, i: nat)
    requires Partials(words, master) && Partial(words, master, prefix)
    requires i < |words| && prefix[|prefix| - 1] <= i
    ensures Phrase(words, prefix + [i]) == Phrase(words, prefix) + " " + words[i]
    ensures IsText(Phrase(words, prefix + [i]))
    ensures Letters(Phrase(words, prefix + [i])) == Total(words, prefix + [i])
            == Total(words, prefix) + Letters(words[i])
  {
    var ws := Pick(words, prefix + [i]);
    assert ws[..|prefix|] == Pick(words, prefix);
    JoinIsText(ws);
    LettersOfJoin(ws);
    TotalAppend(words, master, prefix, i);
  }

  // ----- One thread --------------------------------------------------------------------------------------

  /** Allocates the scratch buffers of a thread. */
  method NewBuffers() returns (buffers: seq<OccupancyHash>, ghost rest: set<object>)
    ensures |buffers| == BUFFERS && BuffersValid(buffers, 0, rest) && fresh(rest)
  {
    buffers, rest := [], {};
    while |buffers| < BUFFERS
      invariant |buffers| <= BUFFERS && BuffersValid(buffers, 0, rest) && fresh(rest)
    {
      var hash := new OccupancyHash();
      BuffersAppend(buffers, hash, rest);
      buffers, rest := buffers + [hash], rest + hash.Repr();
    }
  }

  /** Allocates everything a thread counts in. */
  method NewHashes() returns (master: OccupancyHash, a: OccupancyHash, b: OccupancyHash,
                              buffers: seq<OccupancyHash>, ghost rest: set<object>)
    ensures master.Valid() && a.Valid() && b.Valid()
    ensures |buffers| == BUFFERS && BuffersValid(buffers, 0, rest)
    ensures fresh(master.Repr()) && fresh(a.Repr()) && fresh(b.Repr()) && fresh(rest)
    ensures master.Repr() !! a.Repr() && Separate(master.Repr(), a.Repr(), b.Repr(), rest, {})
  {
    hide OccupancyHash.Valid, BuffersValid;
    master := new OccupancyHash();
    a := new OccupancyHash();
    b := new OccupancyHash();
    buffers, rest := NewBuffers();
  }

  lemma BuffersAppend(buffers: seq<OccupancyHash>, hash: OccupancyHash, rest: set<object>)
    requires BuffersValid(buffers, 0, rest) && hash.Valid() && hash.Repr() !! rest
    ensures BuffersValid(buffers + [hash], 0, rest + hash.Repr())
  {
    var all := buffers + [hash];
    assert forall o :: o in hash.Repr() ==> o in all[|buffers|].Repr();
    assert forall k :: 0 <= k < |buffers| ==> all[k] == buffers[k];
    assert BuffersFrom(all, 0) == rest + hash.Repr();
    forall j, k | 0 <= j < k < |all|
      ensures all[j].Repr() !! all[k].Repr()
    {
      if k == |buffers| {
        assert forall o :: o in buffers[j].Repr() ==> o in BuffersFrom(buffers, 0);
      }
    }
  }

  /** Advances the position `i` by `n` steps, stopping at the end of the map. */
  method AdvanceIterator(i: nat, n: nat, end: nat) returns (j: nat)
    requires i <= end
    ensures j == Advance(i, n, end) && j <= end
  {
    j := i;
    for inc := 0 to n
      invariant j == Advance(i, inc, end) && j <= end
    {
      if j != end {
        j := j + 1;
      }
    }
  }

  /**
   The share of one thread: first words from position `threadIndex` on, `cpuTot` apart. The partial words
   are proper parts of the master, so none of them is the master itself and every round advances.
   */
  method CombineSubsetsFast(word: string, subset: KeyMap, output: KeyMap, flags: Flags, threadIndex: nat,
                            cpuTot: nat, queue: PushLog)
    requires output.Valid() && subset != output && IsText(word) && cpuTot > 0
    requires Partials(subset.keys, Letters(word)) && MasterFits(Letters(word))
    requires |Letters(word)| <= 66
    modifies output, queue
    ensures output.Valid()
    ensures Delivered(Phrases(subset.keys, ThreadSearch(subset.keys, Letters(word), flags.allowDupes, threadIndex,
                                                        cpuTot)),
                      flags, old(output.Keys()), output.Keys(), old(queue.texts), queue.texts)
  {
    hide Partials, Letters, MasterFits, Fits, Delivered, ThreadSearch, OccupancyHash.Valid, BuffersValid;
    var master, a, b, buffers; ghost var rest;
    master, a, b, buffers, rest := NewHashes();
    PartsFit(Letters(word), Letters(word), Letters(word));
    Recount(master, word);
    CombineRounds(word, subset, output, master, a, b, buffers, flags, threadIndex, cpuTot, queue,
                  subset.keys, Letters(word), rest);
  }

  /** The rounds of a thread on its scratch hashes. */
  method CombineRounds(word: string, subset: KeyMap, output: KeyMap, master: OccupancyHash, a: OccupancyHash,
                       b: OccupancyHash, buffers: seq<OccupancyHash>, flags: Flags, threadIndex: nat, cpuTot: nat,
                       queue: PushLog, ghost words: seq<string>, ghost letters: multiset<char>,
                       ghost rest: set<object>)
    requires output.Valid() && subset != output && subset.keys == words && cpuTot > 0
    requires master.Valid() && a.Valid() && b.Valid() && BuffersValid(buffers, 0, rest) && |buffers| == BUFFERS
    requires Separate(master.Repr(), a.Repr(), b.Repr(), rest, {subset, output, queue})
    requires master.Repr() !! a.Repr() && master.Contents == letters == Letters(word)
    requires Partials(words, letters) && MasterFits(letters) && |letters| <= 66
    modifies output, queue, a.Repr(), b.Repr(), rest
    ensures output.Valid()
    ensures Delivered(Phrases(words, ThreadSearch(words, letters, flags.allowDupes, threadIndex, cpuTot)), flags,
                      old(output.Keys()), output.Keys(), old(queue.texts), queue.texts)
  {
    hide Partials, Letters, MasterFits, Fits, Delivered, ThreadSearch, FirstWord, OccupancyHash.Valid,
         BuffersValid, BuffersFrom, Phrases;
    PhrasesOfNothing(words);
    ThreadGoesOn(words, letters, flags.allowDupes, threadIndex, cpuTot);
    DeliveredNothing(flags, output.Keys(), queue.texts);
    var i := AdvanceIterator(0, threadIndex, |subset.keys|);
    ghost var done: seq<seq<nat>> := [];
    while i < |subset.keys|
      invariant i <= |words| && subset.keys == words
      invariant output.Valid() && master.Valid() && a.Valid() && b.Valid() && BuffersValid(buffers, 0, rest)
      invariant master.Contents == letters
      invariant done + ThreadSearch(words, letters, flags.allowDupes, i, cpuTot) ==
                ThreadSearch(words, letters, flags.allowDupes, threadIndex, cpuTot)
      invariant Delivered(Phrases(words, done), flags, old(output.Keys()), output.Keys(),
                          old(queue.texts), queue.texts)
      decreases |words| - i
    {
      ghost var keys, texts := output.Keys(), queue.texts;
      ghost var step := FirstWord(words, letters, flags.allowDupes, i);
      ThreadGoesOn(words, letters, flags.allowDupes, i, cpuTot);
      CombineFrom(word, subset, output, master, a, b, buffers, i, flags, queue, words, letters, rest);
      DeliveredConcat(Phrases(words, done), Phrases(words, step), flags, old(output.Keys()), keys, output.Keys(),
                      old(queue.texts), texts, queue.texts);
      PhrasesConcat(words, done, step);
      done := done + step;
      i := AdvanceIterator(i, cpuTot, |subset.keys|);
    }
    ThreadGoesOn(words, letters, flags.allowDupes, i, cpuTot);
    assert done + [] == done;
  }

  lemma ThreadGoesOn(words: seq<string>, letters: multiset<char>, dupes: bool, i: nat, stride: nat)
    requires Partials(words, letters) && stride > 0
    ensures i >= |words| ==> ThreadSearch(words, letters, dupes, i, stride) == []
    ensures ThreadSearch(words, letters, dupes, Advance(0, i, |words|), stride) ==
            ThreadSearch(words, letters, dupes, i, stride)
    ensures i < |words| ==>
              ThreadSearch(words, letters, dupes, i, stride) ==
              FirstWord(words, letters, dupes, i)
              + ThreadSearch(words, letters, dupes, Advance(i, stride, |words|), stride)
  {
  }

  /** A thread begins its search at a word that is not the master. */
  lemma FirstStands(words: seq<string>, letters: multiset<char>, dupes: bool, i: nat)
    requires Partials(words, letters) && MasterFits(letters) && |letters| <= 66 && i < |words|
    ensures StandsAt(words[i], words, letters, dupes, [i], i, 0)
    ensures Phrases(words, FirstWord(words, letters, dupes, i)) ==
            FoundFrom(words[i], words, letters, dupes, [i], i, 0)
    ensures IsText(words[i]) && Fits(Letters(words[i])) && Letters(words[i]) == Total(words, [i]) != letters
  {
    SingleIsPartial(words, letters, i);
    PartsFit(letters, Letters(words[i]), Letters(words[i]));
    ShortMasterInBounds(words, letters, dupes, [i], i);
  }

  /** One round of a thread: all phrases that begin with the word at position `i`. */
  method CombineFrom(word: string, subset: KeyMap, output: KeyMap, master: OccupancyHash, a: OccupancyHash,
                     b: OccupancyHash, buffers: seq<OccupancyHash>, i: nat, flags: Flags, queue: PushLog,
                     ghost words: seq<string>, ghost letters: multiset<char>, ghost rest: set<object>)
    requires output.Valid() && subset != output && subset.keys == words && i < |words|
    requires master.Valid() && a.Valid() && b.Valid() && BuffersValid(buffers, 0, rest) && |buffers| == BUFFERS
    requires Separate(master.Repr(), a.Repr(), b.Repr(), rest, {subset, output, queue})
    requires master.Repr() !! a.Repr() && master.Contents == letters == Letters(word)
    requires Partials(words, letters) && MasterFits(letters) && |letters| <= 66
    modifies output, queue, a.Repr(), b.Repr(), rest
    ensures output.Valid() && a.Valid() && b.Valid() && BuffersValid(buffers, 0, rest)
    ensures Delivered(Phrases(words, FirstWord(words, letters, flags.allowDupes, i)), flags,
                      old(output.Keys()), output.Keys(), old(queue.texts), queue.texts)
  {
    hide Partials, Partial, InBounds, Total, Phrase, Letters, MasterFits, Fits, Delivered, FoundFrom, StandsAt,
         OccupancyHash.Valid, BuffersValid, BuffersFrom;
    FirstStands(words, letters, flags.allowDupes, i);
    if !flags.allowDupes && subset.keys[i] == word {
      assert false;
    }
    Recount(a, subset.keys[i]);
    CombineSubsetsRecurseFast(subset.keys[i], subset, output, master, a, b, buffers, i, flags, queue, 0,
                              words, letters, [i], rest);
  }
}
