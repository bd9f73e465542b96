/**
 The gather phase: every distinct letter of the master is looked up once, and each stored word found is a
 full anagram, a partial word, or neither.
 */
module Gathers {
  import opened Combines
  import opened FuzzyFinds
  import opened KeyMaps
  import opened Lists
  import opened OccupancyHashes
  import opened TernaryTrees
  import opened Text
  import opened Ties
  import opened Tries

  /** What the stored words that begin with one of `initials` must be for their letters to be counted. */
  ghost predicate DictionaryFits(t: Tree, initials: string) {
    forall w :: Has(t, w) && w[0] in initials ==> IsWord(w) && Fits(Letters(w))
  }

  /** `w` is not excluded and has exactly the master's letters. */
  ghost predicate Full(w: string, exclude: set<string>, letters: multiset<char>) {
    w !in exclude && Letters(w) == letters
  }

  /** `w` is not excluded and leaves some of the master's letters over. */
  ghost predicate Part(w: string, exclude: set<string>, letters: multiset<char>) {
    w !in exclude && Letters(w) < letters
  }

  /** A gather phase under way, for specifications: its input, what was there before, what it has seen and found. */
  datatype Gathering = Gathering(letters: multiset<char>, exclude: set<string>, flags: Flags,
                                 anagrams: set<string>, subset: set<string>, texts: seq<string>,
                                 seen: set<string>, found: seq<string>)

  /**
   What the gather phase has collected: the full anagrams among the words seen that were not there before,
   each once and delivered, and the partial words among them.
   */
  ghost predicate Gathered(g: Gathering, anagrams: set<string>, subset: set<string>, texts: seq<string>) {
    && NoRepeats(g.found)
    && (forall w :: w in g.found <==> w in g.seen && Full(w, g.exclude, g.letters) && w !in g.anagrams)
    && (forall w :: w in subset <==> w in g.subset || (w in g.seen && Part(w, g.exclude, g.letters)))
    && Delivered(g.found, g.flags, g.anagrams, anagrams, g.texts, texts)
  }

  /** The tables and hashes of the gather phase are well formed and apart, and hold what it has collected. */
  ghost predicate Ready(g: Gathering, anagrams: KeyMap, subset: KeyMap, exclude: KeyMap, flags: Flags, queue: PushLog,
                        master: OccupancyHash, count: OccupancyHash)
    reads anagrams, subset, exclude, queue, master.Repr(), count.Repr()
  {
    && anagrams.Valid() && subset.Valid() && anagrams != subset && anagrams != exclude && subset != exclude
    && master.Valid() && count.Valid() && master.Repr() !! count.Repr()
    && master.Contents == g.letters && exclude.Keys() == g.exclude && flags == g.flags
    && Gathered(g, anagrams.Keys(), subset.Keys(), queue.texts)
  }

  /** After one more word, which is full and new, partial, or neither. */
  function Next(g: Gathering, w: string, now: seq<string>): Gathering {
    g.(seen := g.seen + {w}, found := g.found + now)
  }

  lemma GatheredNext(g: Gathering, w: string, anagrams: set<string>, subset: set<string>, texts: seq<string>,
                     anagrams': set<string>, texts': seq<string>)
    requires Gathered(g, anagrams, subset, texts) && w !in g.seen
    ensures var now := if Full(w, g.exclude, g.letters) && w !in anagrams then [w] else [];
            var subset' := subset + (if Part(w, g.exclude, g.letters) then {w} else {});
            Delivered(now, g.flags, anagrams, anagrams', texts, texts') ==>
              Gathered(Next(g, w, now), anagrams', subset', texts')
  {
    hide Full, Part;
    assert w in anagrams <==> w in g.anagrams;
    var now := if Full(w, g.exclude, g.letters) && w !in anagrams then [w] else [];
    if Delivered(now, g.flags, anagrams, anagrams', texts, texts') {
      DeliveredConcat(g.found, now, g.flags, g.anagrams, anagrams, anagrams', g.texts, texts, texts');
      hide Delivered;
    }
  }

  /** Decides where one stored word belongs. */
  method GatherWord(candidate: string, anagrams: KeyMap, subset: KeyMap, exclude: KeyMap, flags: Flags,
                    queue: PushLog, master: OccupancyHash, count: OccupancyHash, ghost letters: multiset<char>)
    requires anagrams.Valid() && subset.Valid() && anagrams != subset && anagrams != exclude && subset != exclude
    requires master.Valid() && count.Valid() && master.Repr() !! count.Repr() && master.Contents == letters
    requires IsWord(candidate) && Fits(Letters(candidate))
    modifies anagrams, subset, queue, count.Repr()
    ensures anagrams.Valid() && subset.Valid() && count.Valid()
    ensures Delivered(if Full(candidate, exclude.Keys(), letters) && candidate !in old(anagrams.Keys())
                      then [candidate] else [],
                      flags, old(anagrams.Keys()), anagrams.Keys(), old(queue.texts), queue.texts)
    ensures subset.Keys() == old(subset.Keys()) +
                             (if Part(candidate, exclude.Keys(), letters) then {candidate} else {})
  {
    hide OccupancyHash.Valid, Fits, Letters, IsWord, Delivered;
    DeliveredNothing(flags, anagrams.Keys(), queue.texts);
    if exclude.Has(candidate) {
      return;
    }
    WordIsText(candidate);
    Recount(count, candidate);
    var comparison := count.Compare(master);
    if comparison == 0 {
      if !anagrams.Has(candidate) {
        Deliver(candidate, anagrams, flags, queue);
      }
    } else {
      var isSubset := count.IsSubset(master);
      if isSubset {
        subset.Put(candidate);
      }
    }
  }

  lemma WordIsText(w: string)
    requires IsWord(w)
    ensures IsText(w)
  {
  }

  lemma {:induction false} LeastExists(keys: set<int>)
    requires |keys| > 0
    ensures exists k :: k in keys && forall j :: j in keys ==> k <= j
  {
    var x := SomeElement(keys);
    var others := keys - {x};
    assert forall j :: j in keys ==> j == x || j in others;
    if |others| > 0 {
      LeastExists(others);
      var k :| k in others && forall j :: j in others ==> k <= j;
      assert k in keys && (k <= x || forall j :: j in keys ==> x <= j);
    }
  }

  /** `w` is under a key that was visited already. */
  ghost predicate Visited(w: string, words: map<int, string>, rest: set<int>) {
    exists k :: k in words && k !in rest && words[k] == w
  }

  lemma VisitedEnds(words: map<int, string>)
    ensures forall w :: !Visited(w, words, words.Keys)
    ensures forall w :: Visited(w, words, {}) <==> InMap(w, words)
  {
  }

  lemma VisitedNext(words: map<int, string>, rest: set<int>, k: int)
    requires k in rest && k in words
    ensures forall w :: Visited(w, words, rest - {k}) <==> Visited(w, words, rest) || w == words[k]
  {
  }

  /** The words of the list are found under these keys, which ascend. */
  ghost predicate InKeyOrder(words: map<int, string>, keys: seq<int>, list: seq<string>) {
    && |keys| == |list|
    && (forall i :: 0 <= i < |keys| ==> keys[i] in words && words[keys[i]] == list[i])
    && (forall i, j :: 0 <= i < j < |keys| ==> keys[i] < keys[j])
  }

  lemma InKeyOrderNext(words: map<int, string>, keys: seq<int>, list: seq<string>, k: int)
    requires InKeyOrder(words, keys, list) && k in words && forall i :: 0 <= i < |keys| ==> keys[i] < k
    ensures InKeyOrder(words, keys + [k], list + [words[k]])
  {
  }

  /** Goes through the words of a lookup, and finds those that are full and new, in ascending order of their keys. */
  method GatherWords(words: map<int, string>, anagrams: KeyMap, subset: KeyMap, exclude: KeyMap, flags: Flags,
                     queue: PushLog, master: OccupancyHash, count: OccupancyHash, ghost g: Gathering)
    returns (ghost g': Gathering, ghost keys: seq<int>)
    requires Ready(g, anagrams, subset, exclude, flags, queue, master, count)
    requires forall k :: k in words ==> IsWord(words[k]) && Fits(Letters(words[k])) && words[k] !in g.seen
    requires forall j, k :: j in words && k in words && words[j] == words[k] ==> j == k
    modifies anagrams, subset, queue, count.Repr()
    ensures Ready(g', anagrams, subset, exclude, flags, queue, master, count)
    ensures g' == g.(seen := g'.seen, found := g'.found)
    ensures forall w :: w in g'.seen <==> w in g.seen || InMap(w, words)
    ensures g.found <= g'.found && InKeyOrder(words, keys, g'.found[|g.found|..])
  {
    hide Ready, Fits, Letters, IsWord, InMap, Visited;
    g', keys := g, [];
    var rest := words.Keys;
    VisitedEnds(words);
    while |rest| > 0
      invariant rest <= words.Keys
      invariant Ready(g', anagrams, subset, exclude, flags, queue, master, count)
      invariant g' == g.(seen := g'.seen, found := g'.found)
      invariant forall w :: w in g'.seen <==> w in g.seen || Visited(w, words, rest)
      invariant forall k :: k in rest ==> words[k] !in g'.seen
      invariant g.found <= g'.found && InKeyOrder(words, keys, g'.found[|g.found|..])
      invariant forall i, k :: 0 <= i < |keys| && k in rest ==> keys[i] < k
      decreases rest
    {
      LeastExists(rest);
      var k :| k in rest && forall j :: j in rest ==> k <= j;
      VisitedNext(words, rest, k);
      InKeyOrderNext(words, keys, g'.found[|g.found|..], k);
      rest := rest - {k};
      ghost var before := g'.found;
      g' := GatherNext(words[k], anagrams, subset, exclude, flags, queue, master, count, g');
      if g'.found != before {
        keys := keys + [k];
        assert g'.found[|g.found|..] == before[|g.found|..] + [words[k]];
      }
    }
  }

  /** Gathers one word that was not seen before. */
  method GatherNext(w: string, anagrams: KeyMap, subset: KeyMap, exclude: KeyMap, flags: Flags, queue: PushLog,
                    master: OccupancyHash, count: OccupancyHash, ghost g: Gathering)
    returns (ghost g': Gathering)
    requires Ready(g, anagrams, subset, exclude, flags, queue, master, count)
    requires IsWord(w) && Fits(Letters(w)) && w !in g.seen
    modifies anagrams, subset, queue, count.Repr()
    ensures Ready(g', anagrams, subset, exclude, flags, queue, master, count)
    ensures g' == g.(seen := g'.seen, found := g'.found) && g'.seen == g.seen + {w}
    ensures g'.found == g.found || g'.found == g.found + [w]
  {
    hide OccupancyHash.Valid, Fits, Letters, IsWord, Full, Part, Gathered, Delivered;
    ghost var keys, partials, texts := anagrams.Keys(), subset.Keys(), queue.texts;
    GatherWord(w, anagrams, subset, exclude, flags, queue, master, count, g.letters);
    GatheredNext(g, w, keys, partials, texts, anagrams.Keys(), queue.texts);
    g' := Next(g, w, if Full(w, g.exclude, g.letters) && w !in keys then [w] else []);
  }

  /** Looks up one character of the master and gathers the kept words that begin with it. */
  method GatherLetter(t: TernaryTree, c: string, anagrams: KeyMap, subset: KeyMap, exclude: KeyMap, flags: Flags,
                      queue: PushLog, master: OccupancyHash, count: OccupancyHash, ghost g: Gathering)
    returns (ghost g': Gathering, ghost keys: seq<int>)
    requires t.Valid() && t.maxDiff == 0 && |c| <= 1 && IsText(c) && DictionaryFits(TreeOf(t.root), c)
    requires Ready(g, anagrams, subset, exclude, flags, queue, master, count)
    requires forall w :: w in g.seen ==> !(w != "" && c == [w[0]])
    modifies t`tieHwm, anagrams, subset, queue, count.Repr()
    ensures t.Valid() && Ready(g', anagrams, subset, exclude, flags, queue, master, count)
    ensures g' == g.(seen := g'.seen, found := g'.found)
    ensures forall w :: w in g'.seen <==> w in g.seen || (Kept(TreeOf(t.root), w) && c == [w[0]])
    ensures g.found <= g'.found
    ensures InKeyOrder(Found(TreeOf(t.root), c, map[], 0).words, keys, g'.found[|g.found|..])
  {
    hide InKeyOrder, Ready, Fits, Letters, InMap, Found, Kept, Ordered, Depth;
    LetterWords(TreeOf(t.root), c);
    assert {t} !! {anagrams, subset, exclude, queue} + master.Repr() + count.Repr();
    var words := t.FuzzyFind(c, map[]);
    g', keys := GatherWords(words, anagrams, subset, exclude, flags, queue, master, count, g);
  }

  /** What a lookup of one character, or of the empty string at the end of the master, yields. */
  lemma LetterWords(t: Tree, c: string)
    requires Ordered(t) && DictionaryFits(t, c) && |c| <= 1
    ensures var words := Found(t, c, map[], 0).words;
            && (forall k :: k in words ==> IsWord(words[k]) && Fits(Letters(words[k])) && c == [words[k][0]])
            && (forall w :: InMap(w, words) <==> Kept(t, w) && c == [w[0]])
            && (forall j, k :: j in words && k in words && words[j] == words[k] ==> j == k)
  {
    hide Found, Fits, Letters;
    var words := Found(t, c, map[], 0).words;
    if c == "" {
      NothingFound(t, c);
    } else {
      assert c == [c[0]];
      LetterFound(t, c[0]);
    }
    assert forall k :: k in words ==> InMap(words[k], words);
  }

  /** `w` is kept by the lookup of its first letter, which is one of `initials`. */
  ghost predicate Looked(t: Tree, initials: string, w: string) {
    Kept(t, w) && w[0] in initials
  }

  /** The kept words whose first letter was looked up. */
  ghost predicate SeenUpTo(seen: set<string>, t: Tree, done: string) {
    forall w :: w in seen <==> Looked(t, done, w)
  }

  lemma SeenNext(seen: set<string>, seen': set<string>, t: Tree, done: string, c: string)
    requires SeenUpTo(seen, t, done) && |c| <= 1
    requires forall w :: w in seen' <==> w in seen || (Kept(t, w) && c == [w[0]])
    ensures SeenUpTo(seen', t, done + c)
  {
    KeptNotEmpty(t);
    hide Kept;
    forall w
      ensures w in seen' <==> Looked(t, done + c, w)
    {
      if Kept(t, w) {
        assert w[0] in done + c <==> w[0] in done || c == [w[0]];
      }
    }
  }

  lemma KeptNotEmpty(t: Tree)
    ensures forall w :: Kept(t, w) ==> w != ""
  {
  }

  /** The characters of the master before position `i`, which runs one past the end. */
  ghost function Passed(word: string, i: nat): string {
    if i <= |word| then word[..i] else word
  }

  /** What a character, marked or not, means for the words seen. */
  lemma PassedNext(seen: set<string>, t: Tree, word: string, i: nat, marks: seq<bool>)
    requires i <= |word| && IsText(word) && SeenUpTo(seen, t, Passed(word, i))
    requires Marked(marks, Passed(word, i))
    ensures var c, index := if i < |word| then [word[i]] else "", if i < |word| then word[i] as int else 0;
            && Passed(word, i + 1) == Passed(word, i) + c
            && Marked(marks[index := true], Passed(word, i + 1))
            && (marks[index] ==> marks[index := true] == marks && SeenUpTo(seen, t, Passed(word, i + 1)))
            && (!marks[index] ==> forall w :: w in seen ==> !(w != "" && c == [w[0]]))
            && (!marks[index] ==> c == "" || c[0] !in Passed(word, i))
            && (DictionaryFits(t, word) ==> DictionaryFits(t, c))
  {
  }

  lemma MarksIndexed(marks: seq<bool>, word: string, i: nat)
    requires Marked(marks, Passed(word, i)) && IsText(word)
    ensures |marks| == DOMAIN_SIZE && forall k :: 0 <= k < |word| ==> word[k] as int < DOMAIN_SIZE
  {
  }

  /** Exactly the characters of `done` are marked. */
  ghost predicate Marked(charsCompleted: seq<bool>, done: string) {
    |charsCompleted| == DOMAIN_SIZE &&
    forall ch: char :: 0 < ch as int < 128 ==> (charsCompleted[ch as int] <==> ch in done)
  }

  /**
   Of two words found `u` comes before `v`: its first letter occurs earlier in the master, or it is the same
   and `u` has the smaller key in the lookup of that letter.
   */
  ghost predicate FoundBefore(t: Tree, word: string, u: string, v: string) {
    u != "" && v != "" &&
    (|| (exists n :: 0 <= n <= |word| && u[0] in word[..n] && v[0] !in word[..n])
     || (u[0] == v[0] && ByKey(Found(t, [u[0]], map[], 0).words, u, v)))
  }

  ghost predicate ByKey(words: map<int, string>, u: string, v: string) {
    exists a, b :: a in words && b in words && a < b && words[a] == u && words[b] == v
  }

  ghost predicate FoundInOrder(t: Tree, word: string, found: seq<string>) {
    forall i, j :: 0 <= i < j < |found| ==> FoundBefore(t, word, found[i], found[j])
  }

  /** The words found for a new letter come after all words found before, and in key order. */
  lemma FoundNext(t: Tree, word: string, i: nat, c: string, found: seq<string>, found': seq<string>, keys: seq<int>)
    requires Ordered(t) && i <= |word| && |c| <= 1 && FoundInOrder(t, word, found) && found <= found'
    requires InKeyOrder(Found(t, c, map[], 0).words, keys, found'[|found|..])
    requires c == "" || c[0] !in Passed(word, i)
    requires forall w :: w in found ==> w != "" && w[0] in Passed(word, i)
    ensures FoundInOrder(t, word, found')
  {
    hide Found, FoundBefore, Passed;
    var n := |found|;
    forall j, k | 0 <= j < k < |found'|
      ensures FoundBefore(t, word, found'[j], found'[k])
    {
      if k < n {
        assert found'[j] == found[j] && found'[k] == found[k];
      } else {
        NewBegins(t, c, found'[n..], keys, k - n);
        assert found'[n..][k - n] == found'[k];
        if j < n {
          assert found'[j] == found[j] && found[j] in found;
          OldBeforeNew(t, word, i, found'[j], found'[k]);
        } else {
          NewBegins(t, c, found'[n..], keys, j - n);
          assert found'[n..][j - n] == found'[j];
          NewByKey(t, word, c, keys[j - n], keys[k - n]);
        }
      }
    }
  }

  lemma NewBegins(t: Tree, c: string, list: seq<string>, keys: seq<int>, i: nat)
    requires Ordered(t) && |c| <= 1 && InKeyOrder(Found(t, c, map[], 0).words, keys, list) && i < |keys|
    ensures i < |list| && keys[i] in Found(t, c, map[], 0).words && Found(t, c, map[], 0).words[keys[i]] == list[i]
    ensures list[i] != "" && c == [list[i][0]] && c[0] == list[i][0]
  {
    hide Found;
    LookupBegins(t, c, keys[i]);
  }

  lemma OldBeforeNew(t: Tree, word: string, i: nat, u: string, v: string)
    requires u != "" && v != "" && u[0] in Passed(word, i) && v[0] !in Passed(word, i)
    ensures FoundBefore(t, word, u, v)
  {
    hide Found;
    var n := |Passed(word, i)|;
    assert word[..n] == Passed(word, i);
  }

  lemma NewByKey(t: Tree, word: string, c: string, a: int, b: int)
    requires var words := Found(t, c, map[], 0).words;
             a in words && b in words && a < b && words[a] != "" && words[b] != ""
             && c == [words[a][0]] == [words[b][0]]
    ensures var words := Found(t, c, map[], 0).words; FoundBefore(t, word, words[a], words[b])
  {
    hide Found;
    var words := Found(t, c, map[], 0).words;
    assert ByKey(words, words[a], words[b]);
    assert [words[a][0]][0] == [words[b][0]][0];
  }

  lemma LookupBegins(t: Tree, c: string, k: int)
    requires Ordered(t) && |c| <= 1 && k in Found(t, c, map[], 0).words
    ensures var w := Found(t, c, map[], 0).words[k]; w != "" && c == [w[0]]
  {
    if c == "" {
      NothingFound(t, c);
      assert false;
    } else {
      LetterFound(t, c[0]);
      assert c == [c[0]];
      assert InMap(Found(t, c, map[], 0).words[k], Found(t, c, map[], 0).words);
    }
  }

  /** Every word found was seen, and begins with one of the letters looked up. */
  lemma FoundBegins(g: Gathering, t: Tree, done: string, anagrams: set<string>, subset: set<string>,
                    texts: seq<string>)
    requires SeenUpTo(g.seen, t, done) && Gathered(g, anagrams, subset, texts)
    ensures forall w :: w in g.found ==> w != "" && w[0] in done
  {
    KeptNotEmpty(t);
    hide Kept;
  }

  lemma ReadyFoundBegins(g: Gathering, anagrams: KeyMap, subset: KeyMap, exclude: KeyMap, flags: Flags, queue: PushLog,
                         master: OccupancyHash, count: OccupancyHash, t: Tree, done: string)
    requires Ready(g, anagrams, subset, exclude, flags, queue, master, count) && SeenUpTo(g.seen, t, done)
    ensures forall w :: w in g.found ==> w != "" && w[0] in done
  {
    FoundBegins(g, t, done, anagrams.Keys(), subset.Keys(), queue.texts);
  }

  /** Gathers for the character at position `i`, unless it was met before; past the end it is the terminator. */
  method GatherAt(t: TernaryTree, word: string, i: nat, anagrams: KeyMap, subset: KeyMap, exclude: KeyMap,
                  flags: Flags, queue: PushLog, charsCompleted: array<bool>, master: OccupancyHash,
                  count: OccupancyHash, ghost g: Gathering)
    returns (ghost g': Gathering)
    requires t.Valid() && t.maxDiff == 0 && IsText(word) && i <= |word| && DictionaryFits(TreeOf(t.root), word)
    requires Ready(g, anagrams, subset, exclude, flags, queue, master, count)
    requires {charsCompleted} !! master.Repr() && {charsCompleted} !! count.Repr()
    requires Marked(charsCompleted[..], Passed(word, i)) && SeenUpTo(g.seen, TreeOf(t.root), Passed(word, i))
    modifies t`tieHwm, anagrams, subset, queue, charsCompleted, count.Repr()
    ensures t.Valid() && Ready(g', anagrams, subset, exclude, flags, queue, master, count)
    ensures g' == g.(seen := g'.seen, found := g'.found)
    ensures Marked(charsCompleted[..], Passed(word, i + 1)) && SeenUpTo(g'.seen, TreeOf(t.root), Passed(word, i + 1))
    ensures FoundInOrder(TreeOf(t.root), word, g.found) ==> FoundInOrder(TreeOf(t.root), word, g'.found)
  {
    hide Ready, DictionaryFits, Kept, Ordered, Depth, SeenUpTo, FoundInOrder, InKeyOrder, Found, Passed, Marked;
    ReadyFoundBegins(g, anagrams, subset, exclude, flags, queue, master, count, TreeOf(t.root), Passed(word, i));
    g' := g;
    var c := if i < |word| then [word[i]] else "";
    var index := if i < |word| then word[i] as int else 0;
    MarksIndexed(charsCompleted[..], word, i);
    PassedNext(g.seen, TreeOf(t.root), word, i, charsCompleted[..]);
    if !charsCompleted[index] {
      charsCompleted[index] := true;
      ghost var keys;
      g', keys := GatherLetter(t, c, anagrams, subset, exclude, flags, queue, master, count, g);
      SeenNext(g.seen, g'.seen, TreeOf(t.root), Passed(word, i), c);
      if FoundInOrder(TreeOf(t.root), word, g.found) {
        FoundNext(TreeOf(t.root), word, i, c, g.found, g'.found, keys);
      }
    }
  }

  lemma NothingGathered(g: Gathering, t: Tree)
    requires g.seen == {} && g.found == []
    ensures SeenUpTo(g.seen, t, "") && Gathered(g, g.anagrams, g.subset, g.texts)
  {
  }

  lemma AllSeen(g: Gathering, t: Tree, word: string, anagrams: set<string>, subset: set<string>, texts: seq<string>)
    requires SeenUpTo(g.seen, t, word) && Gathered(g, anagrams, subset, texts)
    ensures NoRepeats(g.found) && Delivered(g.found, g.flags, g.anagrams, anagrams, g.texts, texts)
    ensures forall w :: w in g.found <==> Looked(t, word, w) && Full(w, g.exclude, g.letters) && w !in g.anagrams
    ensures forall w :: w in subset <==> w in g.subset || (Looked(t, word, w) && Part(w, g.exclude, g.letters))
  {
  }

  /**
   The gather phase: `found` are the kept words that are full anagrams and were not in the map before,
   each delivered once, and the partial words are added to `subset`.
   */
  method Gather(t: TernaryTree, word: string, anagrams: KeyMap, subset: KeyMap, exclude: KeyMap, flags: Flags,
                queue: PushLog, charsCompleted: array<bool>)
    returns (ghost found: seq<string>)
    requires t.Valid() && t.maxDiff == 0 && IsText(word) && MasterFits(Letters(word))
    requires DictionaryFits(TreeOf(t.root), word)
    requires anagrams.Valid() && subset.Valid() && anagrams != subset && anagrams != exclude && subset != exclude
    requires charsCompleted.Length == DOMAIN_SIZE && forall c :: 0 <= c < DOMAIN_SIZE ==> !charsCompleted[c]
    modifies t`tieHwm, anagrams, subset, queue, charsCompleted
    ensures t.Valid() && anagrams.Valid() && subset.Valid()
    ensures NoRepeats(found) && FoundInOrder(TreeOf(t.root), word, found)
    ensures forall w :: w in found <==>
                          Looked(TreeOf(t.root), word, w) && Full(w, exclude.Keys(), Letters(word))
                          && w !in old(anagrams.Keys())
    ensures forall w :: w in subset.Keys() <==>
                          w in old(subset.Keys())
                          || (Looked(TreeOf(t.root), word, w) && Part(w, exclude.Keys(), Letters(word)))
    ensures Delivered(found, flags, old(anagrams.Keys()), anagrams.Keys(), old(queue.texts), queue.texts)
  {
    hide OccupancyHash.Valid, Fits, Letters, Delivered, Full, Part, Gathered, DictionaryFits, Kept,
         Ordered, Depth, SeenUpTo, MasterFits;
    var master := new OccupancyHash();
    var count := new OccupancyHash();
    PartsFit(Letters(word), Letters(word), Letters(word));
    Recount(master, word);
    found := GatherRounds(t, word, anagrams, subset, exclude, flags, queue, charsCompleted, master, count);
  }

  /** The rounds of the gather phase on its two hashes. */
  method GatherRounds(t: TernaryTree, word: string, anagrams: KeyMap, subset: KeyMap, exclude: KeyMap, flags: Flags,
                      queue: PushLog, charsCompleted: array<bool>, master: OccupancyHash, count: OccupancyHash)
    returns (ghost found: seq<string>)
    requires t.Valid() && t.maxDiff == 0 && IsText(word)
    requires DictionaryFits(TreeOf(t.root), word)
    requires anagrams.Valid() && subset.Valid() && anagrams != subset && anagrams != exclude && subset != exclude
    requires master.Valid() && count.Valid() && master.Repr() !! count.Repr() && master.Contents == Letters(word)
    requires {charsCompleted} !! master.Repr() && {charsCompleted} !! count.Repr()
    requires charsCompleted.Length == DOMAIN_SIZE && forall c :: 0 <= c < DOMAIN_SIZE ==> !charsCompleted[c]
    modifies t`tieHwm, anagrams, subset, queue, charsCompleted, count.Repr()
    ensures t.Valid() && anagrams.Valid() && subset.Valid()
    ensures NoRepeats(found) && FoundInOrder(TreeOf(t.root), word, found)
    ensures forall w :: w in found <==>
                          Looked(TreeOf(t.root), word, w) && Full(w, exclude.Keys(), Letters(word))
                          && w !in old(anagrams.Keys())
    ensures forall w :: w in subset.Keys() <==>
                          w in old(subset.Keys())
                          || (Looked(TreeOf(t.root), word, w) && Part(w, exclude.Keys(), Letters(word)))
    ensures Delivered(found, flags, old(anagrams.Keys()), anagrams.Keys(), old(queue.texts), queue.texts)
  {
    hide OccupancyHash.Valid, Letters, Delivered, Full, Part, Gathered, DictionaryFits, Kept, Ordered, Depth,
         SeenUpTo, Found;
    ghost var tree := TreeOf(t.root);
    ghost var g := Gathering(Letters(word), exclude.Keys(), flags, anagrams.Keys(), subset.Keys(), queue.texts, {}, []);
    ghost var start := g;
    NothingGathered(g, tree);
    var i := 0;
    while i <= |word|
      invariant 0 <= i <= |word| + 1
      invariant t.Valid() && TreeOf(t.root) == tree && t.maxDiff == 0
      invariant Ready(g, anagrams, subset, exclude, flags, queue, master, count)
      invariant g == start.(seen := g.seen, found := g.found)
      invariant Marked(charsCompleted[..], Passed(word, i)) && SeenUpTo(g.seen, tree, Passed(word, i))
      invariant FoundInOrder(tree, word, g.found)
    {
      g := GatherAt(t, word, i, anagrams, subset, exclude, flags, queue, charsCompleted, master, count, g);
      i := i + 1;
    }
    AllSeen(g, tree, word, anagrams.Keys(), subset.Keys(), queue.texts);
    found := g.found;
  }
}
