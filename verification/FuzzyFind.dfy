/**
 What an inexact lookup finds: the stored words that continue the longest prefix of the query that is a path
 in the tree, collected under score keys.
 */
module FuzzyFinds {
  import opened EditDistances
  import opened Lists
  import opened Text
  import opened Ties
  import opened Tries

  /** The longest prefix of `w` that is a path in the tree. */
  ghost function Stem(t: Tree, w: string): string {
    if w == "" || At(t, w).Node? then w else Stem(t, w[..|w| - 1])
  }

  lemma {:induction false} StemIsLongestPath(t: Tree, w: string)
    ensures Stem(t, w) <= w
    ensures Stem(t, w) != "" ==> At(t, Stem(t, w)).Node?
    ensures forall i :: |Stem(t, w)| < i <= |w| ==> At(t, w[..i]) == Leaf
    decreases |w|
  {
    if w != "" && At(t, w) == Leaf {
      var n := |w| - 1;
      StemIsLongestPath(t, w[..n]);
      forall i | |Stem(t, w)| < i <= |w|
        ensures At(t, w[..i]) == Leaf
      {
        if i <= n {
          assert w[..n][..i] == w[..i];
        } else {
          assert w[..i] == w;
        }
      }
    }
  }

  /** The words met below the stem. */
  ghost function Met(t: Tree, word: string, maxDiff: int): seq<string>
    requires Stem(t, word) != ""
  {
    StemIsLongestPath(t, word);
    Walk(At(t, Stem(t, word)).center, Stem(t, word), word, maxDiff)
  }

  /** An exact match goes to key 0. */
  ghost function ExactMatch(t: Tree, stem: string, start: map<int, string>): map<int, string> {
    if Has(t, stem) then start[0 := stem] else start
  }

  /** The map an inexact lookup of `word` fills, the stem under key 0 and the words met under their keys. */
  ghost function Found(t: Tree, word: string, start: map<int, string>, maxDiff: int): Scores {
    var stem := Stem(t, word);
    if stem == "" then Scores(start, map[], 0)
    else
      RecordAll(Scores(ExactMatch(t, stem, start), map[], 0), word, Met(t, word, maxDiff))
  }

  /** A stored word continues the stem exactly if it is the stem or one of the words met without a clamp. */
  lemma MetExactly(t: Tree, word: string)
    requires Ordered(t) && Stem(t, word) != ""
    ensures NoRepeats(Met(t, word, 0))
    ensures forall w :: w in Met(t, word, 0) <==> Has(t, w) && Stem(t, word) < w
  {
    var stem := Stem(t, word);
    var sub := At(t, stem);
    StemIsLongestPath(t, word);
    AtOrdered(t, stem);
    WalkNoRepeats(sub.center, stem, word, 0);
    forall w
      ensures w in Met(t, word, 0) <==> Has(t, w) && stem < w
    {
      if stem < w {
        assert w == stem + w[|stem|..];
        AtContinues(t, stem, w[|stem|..]);
        if Has(t, w) {
          WalkComplete(sub.center, stem, word, w);
        }
      }
      if w in Met(t, word, 0) {
        WalkSound(sub.center, stem, word, 0, w);
        assert w[..|stem|] == stem;
      }
    }
  }

  /**
   An inexact lookup without a clamp yields exactly the stored words that continue the stem, if and only if
   no score has so many words that its keys run into those of a greater score.
   */
  lemma FoundExactIffRoom(t: Tree, word: string)
    requires Ordered(t) && Stem(t, word) != ""
    ensures (forall w :: InMap(w, Found(t, word, map[], 0).words) <==> Has(t, w) && Stem(t, word) <= w)
            <==> TieRoom(Met(t, word, 0), word)
  {
    var start := ExactMatch(t, Stem(t, word), map[]);
    var met := Met(t, word, 0);
    MetExactly(t, word);
    StemIsLongestPath(t, word);
    assert Has(t, Stem(t, word)) ==> start[0] == Stem(t, word);
    forall w | w in met
      ensures w != word && !InMap(w, start)
    {
      assert word[..|word|] == word;
    }
    AllKeptIffRoom(start, word, met);
    forall w
      ensures InMap(w, start) || w in met <==> Has(t, w) && Stem(t, word) <= w
    {
      assert InMap(w, start) <==> Has(t, w) && w == Stem(t, word);
    }
  }

  /** Nothing is found when no prefix of the query is a path, and no stored word continues one then. */
  lemma NothingFound(t: Tree, word: string)
    requires Stem(t, word) == ""
    ensures Found(t, word, map[], 0).words == map[]
    ensures word != "" ==> forall w :: word <= w ==> !Has(t, w)
  {
    StemIsLongestPath(t, word);
    if word != "" {
      assert word[..|word|] == word;
      forall w | word <= w
        ensures !Has(t, w)
      {
        if word < w {
          AtContinues(t, word, w[|word|..]);
          assert w == word + w[|word|..];
        } else {
          assert w == word;
        }
      }
    }
  }

  // ----- Looking up one letter ---------------------------------------------------------------------------

  /** `w` survives the lookup of its first letter: no later word of the walk takes its key. */
  ghost predicate Kept(t: Tree, w: string) {
    w != "" && InMap(w, Found(t, [w[0]], map[], 0).words)
  }

  /** Exactly which words are kept: those whose key no later word of the walk is given. */
  lemma KeptIffLastOfKey(t: Tree, c: char, i: nat)
    requires Ordered(t) && Stem(t, [c]) == [c] && i < |Met(t, [c], 0)|
    ensures var met := Met(t, [c], 0);
            Kept(t, met[i]) <==> forall j :: i < j < |met| ==> KeyOf(met, [c], j) != KeyOf(met, [c], i)
  {
    var met := Met(t, [c], 0);
    MetExactly(t, [c]);
    assert met[i] in met && [c] < met[i];
    SurvivesIffLastOfKey(ExactMatch(t, [c], map[]), [c], met, i);
  }

  /** Looking up a letter yields the kept words that begin with it, each under one key; all are stored words. */
  lemma LetterFound(t: Tree, c: char)
    requires Ordered(t)
    ensures var words := Found(t, [c], map[], 0).words;
            && (forall w :: InMap(w, words) <==> Kept(t, w) && w[0] == c)
            && (forall w :: InMap(w, words) ==> Has(t, w))
            && (forall j, k :: j in words && k in words && words[j] == words[k] ==> j == k)
  {
    var words := Found(t, [c], map[], 0).words;
    StemIsLongestPath(t, [c]);
    if Stem(t, [c]) == "" {
      NothingFound(t, [c]);
    } else {
      assert Stem(t, [c]) == [c];
      FoundIsStored(t, [c]);
      FoundOnce(t, [c]);
    }
    forall w | InMap(w, words)
      ensures w != "" && w[0] == c && Has(t, w)
    {
      assert [c] <= w;
    }
  }

  /** Whatever the keys, what is found is stored and continues the stem. */
  lemma FoundIsStored(t: Tree, word: string)
    requires Ordered(t) && Stem(t, word) != ""
    ensures forall w :: InMap(w, Found(t, word, map[], 0).words) ==> Has(t, w) && Stem(t, word) <= w
  {
    var start, list := ExactMatch(t, Stem(t, word), map[]), Met(t, word, 0);
    var words := Found(t, word, map[], 0).words;
    MetExactly(t, word);
    RecordAllCollects(start, word, list);
    forall w | InMap(w, words)
      ensures Has(t, w) && Stem(t, word) <= w
    {
      var k :| k in words && words[k] == w;
      CollectedWords(start, word, list, k);
    }
  }

  /** No word is found under two keys. */
  lemma FoundOnce(t: Tree, word: string)
    requires Ordered(t) && Stem(t, word) != ""
    ensures var words := Found(t, word, map[], 0).words;
            forall j, k :: j in words && k in words && words[j] == words[k] ==> j == k
  {
    var start, list := ExactMatch(t, Stem(t, word), map[]), Met(t, word, 0);
    var words := Found(t, word, map[], 0).words;
    MetExactly(t, word);
    RecordAllCollects(start, word, list);
    forall j, k | j in words && k in words && words[j] == words[k]
      ensures j == k
    {
      if i: nat :| i < |list| && list[i] == words[j] {
        assert list[i] in list;
        CollectedUnderKey(start, word, list, i, j);
        CollectedUnderKey(start, word, list, i, k);
      } else {
        CollectedWords(start, word, list, j);
        CollectedWords(start, word, list, k);
        if j !in start {
          CollectedOther(start, word, list, j);
        }
        if k !in start {
          CollectedOther(start, word, list, k);
        }
      }
    }
  }

  // ----- Room for ties, in terms of the dictionary --------------------------------------------------------

  ghost function OfInitialAndLength(dictionary: set<string>, c: char, n: nat): set<string> {
    set w | w in dictionary && w != "" && w[0] == c && |w| == n
  }

  /** No length has so many words of this initial that their keys run into those of a greater length. */
  ghost predicate RoomFor(dictionary: set<string>, c: char) {
    forall m: nat, n: nat :: 2 <= m < n && OfInitialAndLength(dictionary, c, n) != {} ==>
                               |OfInitialAndLength(dictionary, c, m)| <= (n - m) * 4096
  }

  /** The stored words that begin with a letter are all kept if and only if the dictionary leaves room. */
  lemma AllKeptIffRoomFor(t: Tree, dictionary: set<string>, c: char)
    requires Ordered(t) && forall w :: Has(t, w) <==> w in dictionary
    ensures (forall w :: w in dictionary && [c] <= w ==> Kept(t, w)) <==> RoomFor(dictionary, c)
  {
    LetterFound(t, c);
    StemIsLongestPath(t, [c]);
    assert forall w: string :: w != "" ==> (w[0] == c <==> [c] <= w);
    assert forall w :: w in dictionary ==> w != "";
    if Stem(t, [c]) == "" {
      NothingFound(t, [c]);
      assert forall n: nat :: OfInitialAndLength(dictionary, c, n) == {};
    } else {
      assert Stem(t, [c]) == [c];
      FoundExactIffRoom(t, [c]);
      TieRoomIsRoomFor(t, dictionary, c);
    }
  }

  lemma TieRoomIsRoomFor(t: Tree, dictionary: set<string>, c: char)
    requires Ordered(t) && Stem(t, [c]) == [c] && forall w :: Has(t, w) <==> w in dictionary
    ensures TieRoom(Met(t, [c], 0), [c]) <==> RoomFor(dictionary, c)
  {
    var met := Met(t, [c], 0);
    forall s: nat
      ensures Ranked(met, [c], s) == if s == 0 then 0 else |OfInitialAndLength(dictionary, c, s + 1)|
    {
      RankedIsNumber(t, dictionary, c, s);
    }
    if !RoomFor(dictionary, c) {
      var m: nat, n: nat :| 2 <= m < n && OfInitialAndLength(dictionary, c, n) != {}
                            && |OfInitialAndLength(dictionary, c, m)| > (n - m) * 4096;
      assert Ranked(met, [c], n - 1) > 0 && Ranked(met, [c], m - 1) > ((n - 1) - (m - 1)) * 4096;
    }
    if !TieRoom(met, [c]) {
      var s: nat, t: nat :| s < t && Ranked(met, [c], t) > 0 && Ranked(met, [c], s) > (t - s) * 4096;
      assert |OfInitialAndLength(dictionary, c, s + 1)| > ((t + 1) - (s + 1)) * 4096;
      assert OfInitialAndLength(dictionary, c, t + 1) != {};
    }
  }

  /** The words of one score are those that are longer than the letter by that much. */
  lemma RankedIsNumber(t: Tree, dictionary: set<string>, c: char, s: nat)
    requires Ordered(t) && Stem(t, [c]) == [c] && forall w :: Has(t, w) <==> w in dictionary
    ensures Ranked(Met(t, [c], 0), [c], s) == if s == 0 then 0 else |OfInitialAndLength(dictionary, c, s + 1)|
  {
    var met := Met(t, [c], 0);
    MetExactly(t, [c]);
    RankedIsSize(met, [c], s);
    forall w
      ensures w in OfScore(met, [c], s) <==> s > 0 && w in OfInitialAndLength(dictionary, c, s + 1)
    {
      if w != "" && w[0] == c {
        assert w == [c] + w[1..];
        DistanceToExtension([c], w[1..]);
      }
    }
    if s > 0 {
      assert OfScore(met, [c], s) == OfInitialAndLength(dictionary, c, s + 1);
    } else {
      assert OfScore(met, [c], s) == {};
    }
  }

  ghost function OfScore(list: seq<string>, query: string, score: nat): set<string> {
    set w | w in list && Distance(query, w) == score
  }

  lemma {:induction false} RankedIsSize(list: seq<string>, query: string, score: nat)
    requires NoRepeats(list)
    ensures Ranked(list, query, score) == |OfScore(list, query, score)|
    decreases |list|
  {
    if list != [] {
      hide Distance;
      var n := |list| - 1;
      var before, w := list[..n], list[n];
      RankedIsSize(before, query, score);
      assert list == before + [w] && w !in before;
      if Distance(query, w) == score {
        assert OfScore(list, query, score) == OfScore(before, query, score) + {w};
      } else {
        assert OfScore(list, query, score) == OfScore(before, query, score);
      }
    }
  }

  /** At most 4096 words of each length with an initial leave room. */
  lemma FewWordsHaveRoom(dictionary: set<string>, c: char)
    requires forall n: nat :: |OfInitialAndLength(dictionary, c, n)| <= 4096
    ensures RoomFor(dictionary, c)
  {
    hide OfInitialAndLength;
  }

  // ----- Which key a word is under -----------------------------------------------------------------------

  /** The level at which the words that begin with a letter go on. */
  ghost function Below(t: Tree, c: char): Tree {
    if At(t, [c]).Node? then At(t, [c]).center else Leaf
  }

  /** The words of the same initial and length that a walk from the initial meets before `w`. */
  ghost function MetBefore(t: Tree, dictionary: set<string>, c: char, w: string): set<string> {
    set v | v in dictionary && [c] < v && |v| == |w| && Earlier(Below(t, c), [c], v, w)
  }

  /** The key under which the lookup of a letter has a word: from 4096 * (n - 1) on, in the order of the walk. */
  lemma KeyIsRank(t: Tree, dictionary: set<string>, c: char, k: int)
    requires Ordered(t) && forall w :: Has(t, w) <==> w in dictionary
    requires k in Found(t, [c], map[], 0).words
    ensures var w := Found(t, [c], map[], 0).words[k];
            k == if w == [c] then 0 else 4096 * (|w| - 1) + |MetBefore(t, dictionary, c, w)|
  {
    StemIsLongestPath(t, [c]);
    if Stem(t, [c]) == "" {
      NothingFound(t, [c]);
      assert false;
    } else {
      assert Stem(t, [c]) == [c];
      var start, met := ExactMatch(t, [c], map[]), Met(t, [c], 0);
      var w := Found(t, [c], map[], 0).words[k];
      MetExactly(t, [c]);
      RecordAllCollects(start, [c], met);
      if k !in start {
        CollectedOther(start, [c], met, k);
      }
      if w in met {
        var i: nat :| i < |met| && met[i] == w;
        CollectedUnderKey(start, [c], met, i, k);
        RankIsMetBefore(t, dictionary, c, i);
      } else {
        CollectedWords(start, [c], met, k);
      }
    }
  }

  lemma RankIsMetBefore(t: Tree, dictionary: set<string>, c: char, i: nat)
    requires Ordered(t) && Stem(t, [c]) == [c] && forall w :: Has(t, w) <==> w in dictionary
    requires i < |Met(t, [c], 0)|
    ensures var met := Met(t, [c], 0);
            KeyOf(met, [c], i) == 4096 * (|met[i]| - 1) + |MetBefore(t, dictionary, c, met[i])|
  {
    var met := Met(t, [c], 0);
    var w, before := met[i], met[..i];
    MetExactly(t, [c]);
    assert w in met;
    assert w == [c] + w[1..];
    DistanceToExtension([c], w[1..]);
    RankedIsSize(before, [c], |w| - 1);
    forall v
      ensures v in OfScore(before, [c], |w| - 1) <==> v in MetBefore(t, dictionary, c, w)
    {
      if [c] < v {
        assert v == [c] + v[1..];
        DistanceToExtension([c], v[1..]);
      }
      BeforeIsEarlier(t, c, i, v);
      assert v in before ==> v in met;
    }
    assert OfScore(before, [c], |w| - 1) == MetBefore(t, dictionary, c, w);
  }

  /** A word of the walk stands before the `i`-th exactly if it is earlier in the order of the tree. */
  lemma BeforeIsEarlier(t: Tree, c: char, i: nat, v: string)
    requires Ordered(t) && Stem(t, [c]) == [c] && i < |Met(t, [c], 0)|
    ensures var met := Met(t, [c], 0);
            v in met[..i] <==> v in met && Earlier(Below(t, c), [c], v, met[i])
  {
    var met, sub := Met(t, [c], 0), Below(t, c);
    MetInOrder(t, c);
    hide Walk, Earlier, Met, Below, Ordered, InWalkOrder;
    if v in met[..i] {
      var j: nat :| j < i && met[..i][j] == v;
      EarlierAt(sub, [c], met, j, i);
    } else if v in met {
      var j: nat :| j < |met| && met[j] == v;
      NotEarlierAt(sub, [c], met, i, j);
    }
  }

  lemma MetInOrder(t: Tree, c: char)
    requires Ordered(t) && Stem(t, [c]) == [c]
    ensures Ordered(Below(t, c)) && InWalkOrder(Below(t, c), [c], Met(t, [c], 0))
  {
    StemIsLongestPath(t, [c]);
    AtOrdered(t, [c]);
    WalkInOrder(Below(t, c), [c], [c], 0);
  }

  lemma EarlierAt(sub: Tree, pre: string, list: seq<string>, i: nat, j: nat)
    requires InWalkOrder(sub, pre, list) && i < j < |list|
    ensures Earlier(sub, pre, list[i], list[j])
  {
  }

  lemma NotEarlierAt(sub: Tree, pre: string, list: seq<string>, i: nat, j: nat)
    requires Ordered(sub) && InWalkOrder(sub, pre, list) && i <= j < |list|
    ensures !Earlier(sub, pre, list[j], list[i])
  {
    if Earlier(sub, pre, list[j], list[i]) {
      EarlierOneWay(sub, pre, list[j], list[i]);
    }
  }

  // ----- How many words are kept ------------------------------------------------------------------------

  /** `k` is one of as many keys from `s * 4096` on as there are words of `s + 1` letters with the initial. */
  ghost predicate KeyOfLength(dictionary: set<string>, c: char, s: nat, k: int) {
    s * 4096 <= k < s * 4096 + |OfInitialAndLength(dictionary, c, s + 1)|
  }

  /** The keys for the words of 2 up to `most` letters with an initial, those of different lengths united. */
  ghost function KeysUpTo(dictionary: set<string>, c: char, most: nat): set<int> {
    if most < 2 then {}
    else
      var s := most - 1;
      KeysUpTo(dictionary, c, s)
      + set k | s * 4096 <= k < s * 4096 + |OfInitialAndLength(dictionary, c, most)|
                && KeyOfLength(dictionary, c, s, k)
  }

  lemma {:induction false} InKeysUpTo(dictionary: set<string>, c: char, most: nat, k: int)
    ensures k in KeysUpTo(dictionary, c, most) <==> exists s: nat :: 1 <= s < most && KeyOfLength(dictionary, c, s, k)
    decreases most
  {
    hide OfInitialAndLength;
    if most >= 2 {
      InKeysUpTo(dictionary, c, most - 1, k);
    }
  }

  ghost function KeptOf(t: Tree, dictionary: set<string>, c: char): set<string> {
    set w | w in dictionary && [c] <= w && Kept(t, w)
  }

  /**
   How many words with an initial are kept, whatever the shape of the tree: as many as there are keys for
   the words of two or more letters, and the letter itself if it is a word.
   */
  lemma KeptNumber(t: Tree, dictionary: set<string>, c: char, most: nat)
    requires Ordered(t) && forall w :: Has(t, w) <==> w in dictionary
    requires forall w :: w in dictionary ==> |w| <= most
    ensures |KeptOf(t, dictionary, c)| == |KeysUpTo(dictionary, c, most)| + (if [c] in dictionary then 1 else 0)
  {
    hide Has, Ordered, Found, KeysUpTo, Kept, KeptOf, ValuesOf, KeyOfLength;
    var keys := KeysUpTo(dictionary, c, most);
    KeptAreValues(t, dictionary, c);
    LetterFound(t, c);
    ValuesSize(Found(t, [c], map[], 0).words);
    KeysInUse(t, dictionary, c, most);
    if [c] in dictionary {
      assert |keys + {0}| == |keys| + 1;
    } else {
      assert keys + {} == keys;
    }
  }

  lemma KeysInUse(t: Tree, dictionary: set<string>, c: char, most: nat)
    requires Ordered(t) && forall w :: Has(t, w) <==> w in dictionary
    requires forall w :: w in dictionary ==> |w| <= most
    ensures 0 !in KeysUpTo(dictionary, c, most)
    ensures Found(t, [c], map[], 0).words.Keys ==
            KeysUpTo(dictionary, c, most) + (if [c] in dictionary then {0} else {})
  {
    InKeysUpTo(dictionary, c, most, 0);
    hide Has, Ordered, Found, KeysUpTo, OfInitialAndLength;
    forall k
      ensures k in Found(t, [c], map[], 0).words <==>
              (k == 0 && [c] in dictionary) || k in KeysUpTo(dictionary, c, most)
    {
      LetterKeyInUseIff(t, dictionary, c, most, k);
      InKeysUpTo(dictionary, c, most, k);
    }
  }

  ghost function ValuesOf(m: map<int, string>): set<string> {
    set k | k in m :: m[k]
  }

  lemma KeptAreValues(t: Tree, dictionary: set<string>, c: char)
    requires Ordered(t) && forall w :: Has(t, w) <==> w in dictionary
    ensures KeptOf(t, dictionary, c) == ValuesOf(Found(t, [c], map[], 0).words)
  {
    var words := Found(t, [c], map[], 0).words;
    LetterFound(t, c);
    hide Found, Has, Kept;
    forall w
      ensures w in KeptOf(t, dictionary, c) <==> w in ValuesOf(words)
    {
      assert w in ValuesOf(words) <==> InMap(w, words);
      assert w in dictionary ==> ([c] <= w <==> w[0] == c);
    }
  }

  lemma {:induction false} ValuesSize(m: map<int, string>)
    requires forall j, k :: j in m && k in m && m[j] == m[k] ==> j == k
    ensures |ValuesOf(m)| == |m.Keys|
    decreases |m.Keys|
  {
    if |m.Keys| == 0 {
      assert ValuesOf(m) == {};
    } else {
      var k := SomeElement(m.Keys);
      var rest := m - {k};
      assert rest.Keys == m.Keys - {k};
      ValuesSize(rest);
      assert m[k] !in ValuesOf(rest);
      forall w
        ensures w in ValuesOf(m) <==> w in ValuesOf(rest) || w == m[k]
      {
        if w in ValuesOf(rest) {
          var j :| j in rest && rest[j] == w;
          assert m[j] == w;
        }
        if w in ValuesOf(m) && w != m[k] {
          var j :| j in m && m[j] == w;
          assert rest[j] == w;
        }
      }
      assert ValuesOf(m) == ValuesOf(rest) + {m[k]};
    }
  }

  /** Which keys the lookup of a letter uses. */
  lemma LetterKeyInUseIff(t: Tree, dictionary: set<string>, c: char, most: nat, k: int)
    requires Ordered(t) && forall w :: Has(t, w) <==> w in dictionary
    requires forall w :: w in dictionary ==> |w| <= most
    ensures k in Found(t, [c], map[], 0).words <==>
            (k == 0 && [c] in dictionary) || exists s: nat :: 1 <= s < most && KeyOfLength(dictionary, c, s, k)
  {
    StemIsLongestPath(t, [c]);
    if Stem(t, [c]) == "" {
      NothingFound(t, [c]);
      assert forall w: string :: w != "" && w[0] == c ==> [c] <= w;
      assert forall n: nat :: OfInitialAndLength(dictionary, c, n) == {};
    } else {
      assert Stem(t, [c]) == [c];
      var met := Met(t, [c], 0);
      KeyInUseIff(ExactMatch(t, [c], map[]), [c], met, k);
      forall s: nat
        ensures KeyOfScore(met, [c], s, k) <==> 1 <= s < most && KeyOfLength(dictionary, c, s, k)
      {
        RankedIsNumber(t, dictionary, c, s);
        if s >= most {
          assert OfInitialAndLength(dictionary, c, s + 1) == {};
        }
      }
    }
  }

  // ----- A dictionary that loses a word ------------------------------------------------------------------

  ghost function Triple(i: nat): (w: string)
    requires i < 4160
    ensures |w| == 3 && w[0] == 'a' && IsText(w) && ' ' !in w && Lower(w) == w
  {
    ['a', Symbol(i / 64), Symbol(i % 64)]
  }

  lemma TriplesDiffer(i: nat, j: nat)
    requires i < j < 4160
    ensures Triple(i) != Triple(j)
  {
  }

  /** `n` words of three letters, all beginning with "a". */
  ghost function Triples(n: nat): set<string>
    requires n <= 4160
  {
    set i: nat | i < n :: Triple(i)
  }

  lemma {:induction false} TriplesSize(n: nat)
    requires n <= 4160
    ensures |Triples(n)| == n
  {
    hide Triple;
    if n == 0 {
      assert Triples(0) == {};
    } else {
      TriplesSize(n - 1);
      forall i: nat | i < n - 1 {
        TriplesDiffer(i, n - 1);
      }
      assert Triples(n) == Triples(n - 1) + {Triple(n - 1)};
    }
  }

  /** `n` words of three letters and a longer one. */
  ghost function Crowded(n: nat): set<string>
    requires n <= 4160
  {
    Triples(n) + {"aaaa"}
  }

  /** With 4096 words of three letters all are kept; with one more, any tree that stores the words loses one. */
  lemma CrowdedLosesWordIff(t: Tree, n: nat)
    requires n <= 4160 && Ordered(t) && forall w :: Has(t, w) <==> w in Crowded(n)
    ensures (exists w :: w in Crowded(n) && "a" <= w && !Kept(t, w)) <==> n > 4096
  {
    hide Kept, Crowded;
    CrowdedRoom(n);
    AllKeptIffRoomFor(t, Crowded(n), 'a');
  }

  lemma CrowdedRoom(n: nat)
    requires n <= 4160
    ensures RoomFor(Crowded(n), 'a') <==> n <= 4096
  {
    CrowdedByLength(n);
    hide Crowded, OfInitialAndLength;
    if n > 4096 {
      assert |OfInitialAndLength(Crowded(n), 'a', 3)| > (4 - 3) * 4096;
      assert "aaaa" in OfInitialAndLength(Crowded(n), 'a', 4);
    }
  }

  lemma CrowdedByLength(n: nat)
    requires n <= 4160
    ensures forall m: nat :: OfInitialAndLength(Crowded(n), 'a', m) ==
                             if m == 3 then Triples(n) else if m == 4 then {"aaaa"} else {}
    ensures |Triples(n)| == n
  {
    TriplesSize(n);
    hide Triple;
    forall m: nat
      ensures OfInitialAndLength(Crowded(n), 'a', m) ==
              if m == 3 then Triples(n) else if m == 4 then {"aaaa"} else {}
    {
    }
  }
}
