/**
 What an anagram is in terms of the dictionary, and that the search on positions finds exactly the anagrams
 of several words.
 */
module AnagramSpecs {
  import opened Combines
  import opened Interleavings
  import opened Lists
  import opened Searches
  import opened Text

  /** The words follow each other in map order; a word may repeat. */
  ghost predicate InOrder(ws: seq<string>) {
    |ws| <= 1 ||
    (var n := |ws| - 1;
     InOrder(ws[..n]) && (ws[n - 1] == ws[n] || Precedes(ws[n - 1], ws[n])))
  }

  /**
   One or more words of the dictionary, none excluded, in map order, with exactly the given letters.
   Without `dupes` the first two words differ.
   */
  ghost predicate AnagramWords(dictionary: set<string>, exclude: set<string>, letters: multiset<char>, dupes: bool,
                               ws: seq<string>)
  {
    && ws != [] && InOrder(ws) && AllLetters(ws) == letters
    && (forall k :: 0 <= k < |ws| ==> ws[k] in dictionary && ws[k] !in exclude)
    && (dupes || |ws| == 1 || ws[0] != ws[1])
  }

  ghost predicate IsAnagram(dictionary: set<string>, exclude: set<string>, letters: multiset<char>, dupes: bool,
                            p: string)
  {
    exists ws :: AnagramWords(dictionary, exclude, letters, dupes, ws) && p == Join(ws)
  }

  /** An anagram of several words. */
  ghost predicate IsLongAnagram(dictionary: set<string>, exclude: set<string>, letters: multiset<char>, dupes: bool,
                                p: string)
  {
    exists ws :: AnagramWords(dictionary, exclude, letters, dupes, ws) && |ws| > 1 && p == Join(ws)
  }

  /** The sorted list of the partial words of a dictionary. */
  ghost predicate PartialsOf(words: seq<string>, dictionary: set<string>, exclude: set<string>,
                             letters: multiset<char>)
  {
    && Partials(words, letters)
    && forall w :: w in words <==> w in dictionary && w !in exclude && Letters(w) < letters
  }

  ghost predicate FoundAs(words: seq<string>, letters: multiset<char>, dupes: bool, q: seq<nat>, p: string) {
    Solution(words, letters, dupes, q) && p == Phrase(words, q)
  }

  /** In other words: the parts of the phrase between its spaces are such words. */
  lemma AnagramBySplit(dictionary: set<string>, exclude: set<string>, letters: multiset<char>, dupes: bool, p: string)
    requires forall w :: w in dictionary ==> ' ' !in w
    ensures IsAnagram(dictionary, exclude, letters, dupes, p) <==>
            AnagramWords(dictionary, exclude, letters, dupes, Split(p))
  {
    if ws :| AnagramWords(dictionary, exclude, letters, dupes, ws) && p == Join(ws) {
      SplitJoin(ws);
    }
    JoinSplit(p);
  }

  // ----- From positions to words -------------------------------------------------------------------------

  lemma {:induction false} PickInOrder(words: seq<string>, q: seq<nat>)
    requires StrictlySorted(words) && Positions(words, q)
    ensures NonDecreasing(q) <==> InOrder(Pick(words, q))
    decreases |q|
  {
    if |q| > 1 {
      var n := |q| - 1;
      PickPart(words, q, n);
      PickInOrder(words, q[..n]);
      SortedPositions(words, q[n - 1], q[n]);
      LessIsPrecedes(words[q[n - 1]], words[q[n]]);
    }
  }

  lemma SolutionIsAnagram(words: seq<string>, dictionary: set<string>, exclude: set<string>,
                          letters: multiset<char>, dupes: bool, q: seq<nat>)
    requires PartialsOf(words, dictionary, exclude, letters) && Solution(words, letters, dupes, q)
    ensures AnagramWords(dictionary, exclude, letters, dupes, Pick(words, q))
  {
    PickInOrder(words, q);
    SortedPositions(words, q[0], q[1]);
    forall k | 0 <= k < |q|
      ensures Pick(words, q)[k] in dictionary && Pick(words, q)[k] !in exclude
    {
      assert words[q[k]] in words;
    }
  }

  // ----- From words to positions -------------------------------------------------------------------------

  /** In a phrase of several words each of them leaves letters over. */
  lemma {:induction false} WordsArePartial(ws: seq<string>, k: nat)
    requires k < |ws| && forall j :: 0 <= j < |ws| ==> IsWord(ws[j])
    ensures Letters(ws[k]) <= AllLetters(ws)
    ensures |ws| > 1 ==> Letters(ws[k]) < AllLetters(ws)
    decreases |ws|
  {
    var n := |ws| - 1;
    LettersOfWord(ws[n]);
    assert AllLetters(ws) == AllLetters(ws[..n]) + Letters(ws[n]);
    hide Letters, AllLetters, IsWord;
    if n > 0 {
      var j := if k < n then k else 0;
      WordsArePartial(ws[..n], j);
      LettersOfWord(ws[j]);
      PartOfSum(Letters(ws[j]), AllLetters(ws[..n]), Letters(ws[n]));
    }
  }

  lemma PartOfSum(x: multiset<char>, a: multiset<char>, b: multiset<char>)
    requires x <= a && |x| > 0 && |b| > 0
    ensures x < a + b && b < a + b
  {
    assert |a + b| == |a| + |b|;
    assert |a| == |x| + |a - x| by {
      assert a == x + (a - x);
    }
  }

  ghost function PositionOf(words: seq<string>, w: string): (i: nat)
    requires w in words
    ensures i < |words| && words[i] == w
  {
    var i :| 0 <= i < |words| && words[i] == w; i
  }

  ghost function PositionsOf(words: seq<string>, ws: seq<string>): (q: seq<nat>)
    requires forall k :: 0 <= k < |ws| ==> ws[k] in words
    ensures Positions(words, q) && Pick(words, q) == ws
  {
    seq(|ws|, k requires 0 <= k < |ws| => PositionOf(words, ws[k]))
  }

  lemma AnagramIsSolution(words: seq<string>, dictionary: set<string>, exclude: set<string>,
                          letters: multiset<char>, dupes: bool, ws: seq<string>) returns (q: seq<nat>)
    requires PartialsOf(words, dictionary, exclude, letters) && forall w :: w in dictionary ==> IsWord(w)
    requires AnagramWords(dictionary, exclude, letters, dupes, ws) && |ws| > 1
    ensures Solution(words, letters, dupes, q) && Pick(words, q) == ws
  {
    forall k | 0 <= k < |ws|
      ensures ws[k] in words
    {
      WordsArePartial(ws, k);
    }
    q := PositionsOf(words, ws);
    PickInOrder(words, q);
    assert words[q[0]] == ws[0] && words[q[1]] == ws[1];
  }

  // ----- Each anagram once -------------------------------------------------------------------------------

  /** Phrases of different positions differ. */
  lemma PhraseInjective(words: seq<string>, letters: multiset<char>, q: seq<nat>, r: seq<nat>)
    requires Partials(words, letters) && Positions(words, q) && Positions(words, r) && q != [] && r != []
    requires Phrase(words, q) == Phrase(words, r)
    ensures q == r
  {
    JoinInjective(Pick(words, q), Pick(words, r));
    forall k | 0 <= k < |q|
      ensures q[k] == r[k]
    {
      assert words[q[k]] == Pick(words, q)[k] == Pick(words, r)[k] == words[r[k]];
      SortedPositions(words, q[k], r[k]);
    }
  }

  lemma {:induction false} NoRepeatsCount<T>(s: seq<T>, x: T)
    requires NoRepeats(s)
    ensures multiset(s)[x] == if x in s then 1 else 0
    decreases |s|
  {
    if s != [] {
      var n := |s| - 1;
      NoRepeatsCount(s[..n], x);
      assert s == s[..n] + [s[n]];
      assert s[n] !in s[..n];
    }
  }

  /** The phrases one thread finds. */
  ghost function ThreadPhrases(words: seq<string>, letters: multiset<char>, dupes: bool, t: nat, threads: nat)
    : seq<string>
    requires Partials(words, letters) && t < threads
  {
    Phrases(words, ThreadSearch(words, letters, dupes, t, threads))
  }

  /** A thread finds each phrase at most once, and exactly those whose first word it is responsible for. */
  lemma ThreadPhrasesCount(words: seq<string>, letters: multiset<char>, dupes: bool, t: nat, threads: nat, p: string)
    requires Partials(words, letters) && t < threads
    ensures multiset(ThreadPhrases(words, letters, dupes, t, threads))[p] ==
            if exists q :: FoundAs(words, letters, dupes, q, p) && q[0] % threads == t then 1 else 0
  {
    hide Phrase, Partials, ThreadSearch;
    var list := ThreadSearch(words, letters, dupes, t, threads);
    var found := ThreadPhrases(words, letters, dupes, t, threads);
    forall q
      ensures q in list <==> Solution(words, letters, dupes, q) && q[0] % threads == t
    {
      StridesPartition(words, letters, dupes, threads, t, q);
    }
    ThreadPhrasesNoRepeats(words, letters, dupes, t, threads);
    NoRepeatsCount(found, p);
    if p in found {
      var k :| 0 <= k < |found| && found[k] == p;
      assert list[k] in list;
      assert FoundAs(words, letters, dupes, list[k], p);
    }
    if q :| FoundAs(words, letters, dupes, q, p) && q[0] % threads == t {
      assert q in list;
      var k :| 0 <= k < |list| && list[k] == q;
      assert found[k] == p;
    }
  }

  lemma ThreadPhrasesNoRepeats(words: seq<string>, letters: multiset<char>, dupes: bool, t: nat, threads: nat)
    requires Partials(words, letters) && t < threads
    ensures NoRepeats(ThreadPhrases(words, letters, dupes, t, threads))
  {
    hide Phrase, Partials, ThreadSearch;
    var list := ThreadSearch(words, letters, dupes, t, threads);
    var found := ThreadPhrases(words, letters, dupes, t, threads);
    ThreadSearchNoRepeats(words, letters, dupes, t, threads);
    forall i, j | 0 <= i < j < |found|
      ensures found[i] != found[j]
    {
      ThreadSearchExact(words, letters, dupes, t, threads, list[i]);
      ThreadSearchExact(words, letters, dupes, t, threads, list[j]);
      if found[i] == found[j] {
        PhraseInjective(words, letters, list[i], list[j]);
      }
    }
  }

  /** The words of one phrase and those of the other agree up to a place where the one has the smaller word. */
  ghost predicate PhraseBefore(p: string, r: string) {
    exists k :: 0 <= k < |Split(p)| && k < |Split(r)| && Split(p)[..k] == Split(r)[..k]
                && Precedes(Split(p)[k], Split(r)[k])
  }

  ghost predicate PhrasesInOrder(list: seq<string>) {
    forall i, j :: 0 <= i < j < |list| ==> PhraseBefore(list[i], list[j])
  }

  /** A thread finds its phrases in the order of their words. */
  lemma ThreadPhrasesInOrder(words: seq<string>, letters: multiset<char>, dupes: bool, t: nat, threads: nat)
    requires Partials(words, letters) && t < threads
    ensures PhrasesInOrder(ThreadPhrases(words, letters, dupes, t, threads))
  {
    hide Phrase, Partials, ThreadSearch, PhraseBefore, Comes;
    var list := ThreadSearch(words, letters, dupes, t, threads);
    var found := ThreadPhrases(words, letters, dupes, t, threads);
    ThreadSearchAscending(words, letters, dupes, t, threads);
    forall i, j | 0 <= i < j < |found|
      ensures PhraseBefore(found[i], found[j])
    {
      ThreadSearchExact(words, letters, dupes, t, threads, list[i]);
      ThreadSearchExact(words, letters, dupes, t, threads, list[j]);
      assert list[i] in list && list[j] in list;
      PhraseComes(words, letters, list[i], list[j]);
    }
  }

  lemma PhraseComes(words: seq<string>, letters: multiset<char>, q: seq<nat>, r: seq<nat>)
    requires Partials(words, letters) && Positions(words, q) && Positions(words, r) && Comes(q, r)
    ensures PhraseBefore(Phrase(words, q), Phrase(words, r))
  {
    var k :| 0 <= k < |q| && k < |r| && q[..k] == r[..k] && q[k] < r[k];
    SplitJoin(Pick(words, q));
    SplitJoin(Pick(words, r));
    hide Join, Split;
    PickPart(words, q, k);
    PickPart(words, r, k);
    SortedPositions(words, q[k], r[k]);
    LessIsPrecedes(words[q[k]], words[r[k]]);
    assert Pick(words, q)[k] == words[q[k]] && Pick(words, r)[k] == words[r[k]];
  }

  /** What the first `k` threads find. */
  ghost function Traces(words: seq<string>, letters: multiset<char>, dupes: bool, threads: nat, k: nat)
    : seq<seq<string>>
    requires Partials(words, letters) && k <= threads
  {
    seq(k, t requires 0 <= t < k => ThreadPhrases(words, letters, dupes, t, threads))
  }

  lemma TracesInOrder(words: seq<string>, letters: multiset<char>, dupes: bool, threads: nat)
    requires Partials(words, letters)
    ensures var traces := Traces(words, letters, dupes, threads, threads);
            |traces| == threads && forall t :: 0 <= t < threads ==> PhrasesInOrder(traces[t])
  {
    hide Partials, ThreadPhrases, PhrasesInOrder;
    forall t: nat | t < threads
      ensures PhrasesInOrder(ThreadPhrases(words, letters, dupes, t, threads))
    {
      ThreadPhrasesInOrder(words, letters, dupes, t, threads);
    }
  }

  lemma {:induction false} TracesCount(words: seq<string>, letters: multiset<char>, dupes: bool, threads: nat,
                                       k: nat, p: string)
    requires Partials(words, letters) && k <= threads && threads > 0
    ensures Together(Traces(words, letters, dupes, threads, k))[p] ==
            if exists q :: FoundAs(words, letters, dupes, q, p) && q[0] % threads < k then 1 else 0
    decreases k
  {
    hide FoundAs, ThreadPhrases;
    if k > 0 {
      var traces := Traces(words, letters, dupes, threads, k);
      assert traces[..k - 1] == Traces(words, letters, dupes, threads, k - 1);
      hide Partials;
      TracesCount(words, letters, dupes, threads, k - 1, p);
      ThreadPhrasesCount(words, letters, dupes, k - 1, threads, p);
      FoundAsOne(words, letters, dupes, p);
    }
  }

  lemma FoundAsOne(words: seq<string>, letters: multiset<char>, dupes: bool, p: string)
    requires Partials(words, letters)
    ensures forall q, r :: FoundAs(words, letters, dupes, q, p) && FoundAs(words, letters, dupes, r, p) ==> q == r
  {
    forall q, r | FoundAs(words, letters, dupes, q, p) && FoundAs(words, letters, dupes, r, p)
      ensures q == r
    {
      PhraseInjective(words, letters, q, r);
    }
  }

  /**
   Whatever the interleaving of the threads' locked insertions, each anagram of several words is emitted
   exactly once and nothing else is emitted.
   */
  lemma InterleavingExact(words: seq<string>, dictionary: set<string>, exclude: set<string>,
                          letters: multiset<char>, dupes: bool, threads: nat, m: seq<string>, p: string)
    requires PartialsOf(words, dictionary, exclude, letters) && forall w :: w in dictionary ==> IsWord(w)
    requires threads > 0 && Merges(m, Traces(words, letters, dupes, threads, threads))
    ensures multiset(m)[p] == if IsLongAnagram(dictionary, exclude, letters, dupes, p) then 1 else 0
  {
    MergeKeepsItems(m, Traces(words, letters, dupes, threads, threads));
    TracesCount(words, letters, dupes, threads, threads, p);
    SeveralWords(words, dictionary, exclude, letters, dupes, p);
  }

  lemma SeveralWords(words: seq<string>, dictionary: set<string>, exclude: set<string>,
                     letters: multiset<char>, dupes: bool, p: string)
    requires PartialsOf(words, dictionary, exclude, letters) && forall w :: w in dictionary ==> IsWord(w)
    ensures (exists q :: FoundAs(words, letters, dupes, q, p)) <==>
            IsLongAnagram(dictionary, exclude, letters, dupes, p)
  {
    if q :| FoundAs(words, letters, dupes, q, p) {
      SolutionIsAnagram(words, dictionary, exclude, letters, dupes, q);
      assert |Pick(words, q)| > 1 && p == Join(Pick(words, q));
    }
    if ws :| AnagramWords(dictionary, exclude, letters, dupes, ws) && |ws| > 1 && p == Join(ws) {
      var q := AnagramIsSolution(words, dictionary, exclude, letters, dupes, ws);
      assert FoundAs(words, letters, dupes, q, p);
    }
  }
}
