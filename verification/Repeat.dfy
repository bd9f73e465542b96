/**
 What leaving out the flag for duplicates does. The program compares the next word with the whole phrase so
 far, so only phrases whose first two words are equal are dropped; this module proves when a word can repeat.
 */
module Repeats {
  import opened Combines
  import opened Depths
  import opened OccupancyHashes
  import opened Searches
  import opened Text

  ghost predicate RepeatsWord(q: seq<nat>) {
    exists i, j :: 0 <= i < j < |q| && q[i] == q[j]
  }

  ghost predicate RepeatsFirst(q: seq<nat>) {
    |q| >= 2 && q[0] == q[1]
  }

  /** Without the flag a thread drops exactly the phrases whose first two words are equal. */
  lemma FlagDropsExactly(words: seq<string>, master: multiset<char>, t: nat, threads: nat, q: seq<nat>)
    requires Partials(words, master) && t < threads
    ensures q in ThreadSearch(words, master, false, t, threads) <==>
            q in ThreadSearch(words, master, true, t, threads) && !RepeatsFirst(q)
  {
    StridesPartition(words, master, false, threads, t, q);
    StridesPartition(words, master, true, threads, t, q);
  }

  /** Some word and twice a later one together stay within the master's letters. */
  ghost predicate RoomToRepeat(words: seq<string>, master: multiset<char>) {
    exists u, v :: 0 <= u < v < |words| && Letters(words[u]) + Letters(words[v]) + Letters(words[v]) <= master
  }

  lemma {:induction false} NonDecreasingOrder(q: seq<nat>, i: nat, j: nat)
    requires NonDecreasing(q) && i <= j < |q|
    ensures q[i] <= q[j]
    decreases j
  {
    if i < j {
      NonDecreasingPart(q, j);
      NonDecreasingOrder(q, i, j - 1);
    }
  }

  lemma TotalSplit(words: seq<string>, q: seq<nat>)
    requires Positions(words, q) && q != []
    ensures var n := |q| - 1; Total(words, q) == Total(words, q[..n]) + Letters(words[q[n]])
  {
    PickPart(words, q, |q| - 1);
  }

  /** Three words at different places of a phrase have part of its letters. */
  lemma {:induction false} ThreeOfTotal(words: seq<string>, q: seq<nat>, k: nat)
    requires Positions(words, q) && 0 < k && k + 1 < |q|
    ensures Letters(words[q[0]]) + Letters(words[q[k]]) + Letters(words[q[k + 1]]) <= Total(words, q)
    decreases |q|
  {
    hide Total, Letters;
    var n := |q| - 1;
    TotalSplit(words, q);
    if k + 1 < n {
      ThreeOfTotal(words, q[..n], k);
    } else {
      TwoOfTotal(words, q[..n], k);
    }
  }

  lemma {:induction false} TwoOfTotal(words: seq<string>, q: seq<nat>, k: nat)
    requires Positions(words, q) && 0 < k < |q|
    ensures Letters(words[q[0]]) + Letters(words[q[k]]) <= Total(words, q)
    decreases |q|
  {
    hide Total, Letters;
    var n := |q| - 1;
    TotalSplit(words, q);
    if k < n {
      TwoOfTotal(words, q[..n], k);
    } else {
      TotalOfPart(words, q[..n], 1);
      assert q[..n][..1] == [q[0]];
      OneOfTotal(words, q[0]);
    }
  }

  lemma OneOfTotal(words: seq<string>, i: nat)
    requires i < |words|
    ensures Total(words, [i]) == Letters(words[i])
  {
    assert Pick(words, [i]) == [words[i]];
    assert AllLetters([words[i]][..0]) == multiset{};
  }

  /** A repeated word of a phrase whose first two words differ is greater than the first and repeats at once. */
  lemma RepeatedBehindFirst(q: seq<nat>) returns (k: nat)
    requires NonDecreasing(q) && RepeatsWord(q) && !RepeatsFirst(q)
    ensures 0 < k && k + 1 < |q| && q[0] < q[k] == q[k + 1]
  {
    var i, j :| 0 <= i < j < |q| && q[i] == q[j];
    k := i;
    hide NonDecreasing;
    NonDecreasingOrder(q, i, i + 1);
    NonDecreasingOrder(q, i + 1, j);
    NonDecreasingOrder(q, 0, 1);
    if i > 0 {
      NonDecreasingOrder(q, 1, i);
    }
  }

  /** Without room to repeat, no thread finds a phrase that repeats a word when the flag is left out. */
  lemma NoRoomNoRepeat(words: seq<string>, master: multiset<char>, t: nat, threads: nat, q: seq<nat>)
    requires Partials(words, master) && t < threads && !RoomToRepeat(words, master)
    requires q in ThreadSearch(words, master, false, t, threads)
    ensures !RepeatsWord(q)
  {
    StridesPartition(words, master, false, threads, t, q);
    hide Partials, Total, Letters, ThreadSearch, NonDecreasing, RepeatsWord;
    if RepeatsWord(q) {
      var k := RepeatedBehindFirst(q);
      ThreeOfTotal(words, q, k);
    }
  }

  /** A word and twice a later one that use up the master's letters are found, the flag left out. */
  lemma ExactRoomRepeats(words: seq<string>, master: multiset<char>, u: nat, v: nat, threads: nat)
    requires Partials(words, master) && u < v < |words| && threads > 0
    requires Letters(words[u]) + Letters(words[v]) + Letters(words[v]) == master
    ensures [u, v, v] in ThreadSearch(words, master, false, u % threads, threads) && RepeatsWord([u, v, v])
  {
    var q := [u, v, v];
    StridesPartition(words, master, false, threads, u % threads, q);
    assert q[1] == q[2];
    assert NonDecreasing(q) by {
      assert q[..2] == [u, v];
      assert NonDecreasing(q[..2]);
    }
    assert Pick(words, q) == [words[u], words[v], words[v]];
    JoinThree(words[u], words[v], words[v]);
  }

  // ----- Exactly when a word repeats ---------------------------------------------------------------------

  /**
   The letters left after taking a word twice are those of a phrase of one or more words that begins before
   it, and does not begin with the same word twice.
   */
  ghost predicate CompletesTwice(words: seq<string>, master: multiset<char>, v: nat, r: seq<nat>) {
    && v < |words| && r != [] && r[0] < v && !RepeatsFirst(r)
    && Positions(words, r) && NonDecreasing(r)
    && Total(words, r) + Letters(words[v]) + Letters(words[v]) == master
  }

  lemma {:induction false} OrderedNonDecreasing(q: seq<nat>)
    requires forall i, j :: 0 <= i <= j < |q| ==> q[i] <= q[j]
    ensures NonDecreasing(q)
    decreases |q|
  {
    if |q| > 1 {
      OrderedNonDecreasing(q[..|q| - 1]);
    }
  }

  lemma {:induction false} TotalConcat(words: seq<string>, a: seq<nat>, b: seq<nat>)
    requires Positions(words, a) && Positions(words, b)
    ensures Positions(words, a + b) && Total(words, a + b) == Total(words, a) + Total(words, b)
    decreases |b|
  {
    if b == [] {
      assert a + b == a;
      assert Pick(words, b) == [];
    } else {
      var n := |b| - 1;
      assert (a + b)[..|a| + n] == a + b[..n];
      TotalConcat(words, a, b[..n]);
      TotalSplit(words, b);
      TotalSplit(words, a + b);
    }
  }

  /** Taking two equal words out of the middle of a phrase, or putting them in, changes the letters by theirs. */
  lemma TotalWithTwo(words: seq<string>, a: seq<nat>, v: nat, b: seq<nat>)
    requires Positions(words, a) && Positions(words, b) && v < |words|
    ensures Positions(words, a + [v, v] + b)
    ensures Total(words, a + [v, v] + b) == Total(words, a + b) + Letters(words[v]) + Letters(words[v])
  {
    hide Total, Letters;
    TotalConcat(words, a, b);
    TotalConcat(words, a, [v, v]);
    TotalConcat(words, a + [v, v], b);
    assert [v, v] == [v] + [v];
    TotalConcat(words, [v], [v]);
    OneOfTotal(words, v);
  }

  /** The two equal words taken out of a phrase leave one that it completes. */
  lemma RepeatLeavesRest(words: seq<string>, master: multiset<char>, q: seq<nat>) returns (v: nat, r: seq<nat>)
    requires Solution(words, master, false, q) && RepeatsWord(q)
    ensures CompletesTwice(words, master, v, r)
  {
    hide Total, Letters, NonDecreasing, RepeatsWord;
    var k := RepeatedBehindFirst(q);
    v := q[k];
    var a, b := q[..k], q[k + 2..];
    r := a + b;
    assert q == a + [v, v] + b;
    TotalWithTwo(words, a, v, b);
    forall i, j | 0 <= i <= j < |r|
      ensures r[i] <= r[j]
    {
      NonDecreasingOrder(q, if i < k then i else i + 2, if j < k then j else j + 2);
    }
    OrderedNonDecreasing(r);
    if |r| >= 2 {
      NonDecreasingOrder(q, 1, if 1 < k then 1 else 3);
      NonDecreasingOrder(q, 0, 1);
    }
  }

  /** Two equal words put behind all smaller ones of a phrase that begins before them. */
  lemma RestTakesRepeat(words: seq<string>, master: multiset<char>, v: nat, r: seq<nat>) returns (q: seq<nat>)
    requires CompletesTwice(words, master, v, r)
    ensures Solution(words, master, false, q) && RepeatsWord(q)
  {
    hide Total, Letters, NonDecreasing;
    var k := PlaceOf(r, v);
    var a, b := r[..k], r[k..];
    q := a + [v, v] + b;
    assert r == a + b;
    TotalWithTwo(words, a, v, b);
    forall i, j | 0 <= i <= j < |q|
      ensures q[i] <= q[j]
    {
      var at := (x: nat) => if x < k then x else x - 2;
      if (i < k || i >= k + 2) && (j < k || j >= k + 2) {
        NonDecreasingOrder(r, at(i), at(j));
      }
    }
    OrderedNonDecreasing(q);
    assert q[k] == q[k + 1];
  }

  /** The place behind all positions below `v`. */
  lemma {:induction false} PlaceOf(r: seq<nat>, v: nat) returns (k: nat)
    requires r != [] && r[0] < v && NonDecreasing(r)
    ensures 0 < k <= |r| && (forall i :: 0 <= i < k ==> r[i] < v) && forall i :: k <= i < |r| ==> v <= r[i]
    decreases |r|
  {
    var n := |r| - 1;
    if r[n] >= v {
      k := PlaceOf(r[..n], v);
    } else {
      k := |r|;
      forall i | 0 <= i < k
        ensures r[i] < v
      {
        NonDecreasingOrder(r, i, n);
      }
    }
  }

  /**
   Exactly when some phrase found without the flag repeats a word: some word twice and a phrase that begins
   before it together use up the master's letters.
   */
  lemma RepeatsIff(words: seq<string>, master: multiset<char>, threads: nat)
    requires Partials(words, master) && threads > 0
    ensures (exists t: nat, q :: t < threads && q in ThreadSearch(words, master, false, t, threads) && RepeatsWord(q))
            <==> exists v, r :: CompletesTwice(words, master, v, r)
  {
    hide CompletesTwice, RepeatsWord, Partials, ThreadSearch;
    if t: nat, q :| t < threads && q in ThreadSearch(words, master, false, t, threads) && RepeatsWord(q) {
      StridesPartition(words, master, false, threads, t, q);
      var v, r := RepeatLeavesRest(words, master, q);
    }
    if v, r :| CompletesTwice(words, master, v, r) {
      var q := RestTakesRepeat(words, master, v, r);
      StridesPartition(words, master, false, threads, q[0] % threads, q);
    }
  }

  // ----- From how many letters on: an example ------------------------------------------------------------

  lemma TwoWordPartials(u: string, v: string)
    requires IsWord(u) && IsWord(v) && Less(u, v)
    ensures Partials([u, v], Letters(u) + Letters(v) + Letters(v))
  {
  }

  lemma TwoWordsRepeat(u: string, v: string)
    requires IsWord(u) && IsWord(v) && Less(u, v)
    ensures var master := Letters(u) + Letters(v) + Letters(v);
            && Partials([u, v], master) && [0, 1, 1] in ThreadSearch([u, v], master, false, 0, 1)
            && RepeatsWord([0, 1, 1]) && Phrase([u, v], [0, 1, 1]) == u + " " + v + " " + v
  {
    TwoWordPartials(u, v);
    hide Partials, Letters, ThreadSearch, Join, RepeatsWord;
    ExactRoomRepeats([u, v], Letters(u) + Letters(v) + Letters(v), 0, 1, 1);
    assert Pick([u, v], [0, 1, 1]) == [u, v, v];
    JoinThree(u, v, v);
  }

  lemma LettersOfAAndB()
    ensures IsWord("a") && IsWord("b") && Less("a", "b")
    ensures Letters("a") == multiset{'a'} && Letters("b") == multiset{'b'}
  {
  }

  /** For the words "a" and "b" and the letters a, b, b the phrase "a b b" is found. */
  lemma RepeatsBehindFirstWord()
    ensures Partials(["a", "b"], multiset{'a', 'b', 'b'})
    ensures [0, 1, 1] in ThreadSearch(["a", "b"], multiset{'a', 'b', 'b'}, false, 0, 1)
    ensures Phrase(["a", "b"], [0, 1, 1]) == "a b b"
  {
    LettersOfAAndB();
    hide IsWord, Less, Partials, Letters, ThreadSearch, Phrase, RepeatsWord;
    assert multiset{'a', 'b', 'b'} == Letters("a") + Letters("b") + Letters("b");
    TwoWordsRepeat("a", "b");
  }

  // ----- From how many letters on a word can repeat ------------------------------------------------------

  /** The first `n` letters of the long master as one word. */
  ghost function LongText(n: nat): string
    requires n <= BUFFERS
  {
    seq(n, j requires 0 <= j < n => Symbol(LetterAt(j)))
  }

  lemma {:induction false} LongTextLetters(n: nat)
    requires n <= BUFFERS
    ensures Letters(LongText(n)) == Long(n)
    decreases n
  {
    hide Long, Symbol, LetterAt, Letters;
    if n == 0 {
      NoLongLetters();
      NoLetters();
    } else {
      LongTextLetters(n - 1);
      LongNext(n);
      LettersOfPrefix(LongText(n), n - 1);
      assert LongText(n)[..n - 1] == LongText(n - 1) && LongText(n)[..n] == LongText(n);
    }
  }

  /** A master of `n` letters: one long word and twice a one-letter word that follows it. */
  ghost function RepeatMaster(n: nat): multiset<char>
    requires 3 <= n <= 66
  {
    Long(n - 2) + multiset{Symbol(2)} + multiset{Symbol(2)}
  }

  lemma RepeatMasterFits(n: nat)
    requires 3 <= n <= 66
    ensures MasterFits(RepeatMaster(n)) && |RepeatMaster(n)| == n
  {
    var long, master := Long(n - 2), RepeatMaster(n);
    LongLetters(n - 2);
    LongFits(n - 2);
    LongCounts(n - 2, 2);
    SymbolsSize(MAX_CHARS_PER_WORD);
    hide Long, Symbol;
    assert Symbol(2) in Symbols(MAX_CHARS_PER_WORD);
    forall ch | ch in master
      ensures ch in Symbols(MAX_CHARS_PER_WORD)
    {
      assert ch == Symbol(2) || ch in long;
    }
    SubsetSize(Distinct(master), Symbols(MAX_CHARS_PER_WORD));
  }

  lemma RepeatMasterRepeats(n: nat)
    requires 3 <= n <= 66
    ensures var words := [LongText(n - 2), [Symbol(2)]];
            && Partials(words, RepeatMaster(n))
            && [0, 1, 1] in ThreadSearch(words, RepeatMaster(n), false, 0, 1) && RepeatsWord([0, 1, 1])
  {
    var u, v := LongText(n - 2), [Symbol(2)];
    LongTextLetters(n - 2);
    OneLetter(2);
    SymbolsDiffer(0, 2);
    assert u[0] == Symbol(0);
    assert IsWord(u) && Less(u, v) && RepeatMaster(n) == Letters(u) + Letters(v) + Letters(v);
    hide Partials, Letters, ThreadSearch, RepeatMaster, LongText, Symbol, RepeatsWord, IsWord, Less;
    TwoWordsRepeat(u, v);
  }

  /** Of the masters the program has room for, those of at most two letters are the ones no word can repeat in. */
  lemma RepeatsFromThreeLetters(n: nat)
    ensures (forall words, master, t: nat, threads: nat, q ::
               Partials(words, master) && MasterFits(master) && |master| == n <= 66
               && t < threads && q in ThreadSearch(words, master, false, t, threads) ==>
                 !RepeatsWord(q))
            <==> n <= 2 || n > 66
  {
    hide Partials, ThreadSearch, MasterFits, RepeatsWord;
    if 3 <= n <= 66 {
      RepeatMasterFits(n);
      RepeatMasterRepeats(n);
    } else {
      forall words, master, t: nat, threads: nat, q |
        Partials(words, master) && |master| == n <= 2 && t < threads
        && q in ThreadSearch(words, master, false, t, threads)
        ensures !RepeatsWord(q)
      {
        TwoLettersNoRoom(words, master);
        NoRoomNoRepeat(words, master, t, threads, q);
      }
    }
  }

  lemma TwoLettersNoRoom(words: seq<string>, master: multiset<char>)
    requires Partials(words, master) && |master| <= 2
    ensures !RoomToRepeat(words, master)
  {
    if u, v :| 0 <= u < v < |words| && Letters(words[u]) + Letters(words[v]) + Letters(words[v]) <= master {
      LettersOfWord(words[u]);
      LettersOfWord(words[v]);
      PartSize(Letters(words[u]) + Letters(words[v]) + Letters(words[v]), master);
    }
  }

  lemma PartSize(a: multiset<char>, b: multiset<char>)
    requires a <= b
    ensures |a| <= |b|
  {
    assert b == a + (b - a);
  }
}
