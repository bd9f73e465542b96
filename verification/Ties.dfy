/**
 The keys under which scored words are collected. A word of score `s` goes to key `tie + s * 4096`, where
 the tie breaker numbers the words of that score in the order they are met. Keys of different scores can
 run into each other when a score has more than 4096 words; this module proves exactly when a word is lost.
 */
module Ties {
  import opened EditDistances
  import opened Lists

  const TIE_SPAN := 4096

  /** The words collected so far, the last tie breaker given out for each score, and the greatest one. */
  datatype Scores = Scores(words: map<int, string>, ties: map<int, int>, hwm: int)

  /** Collects the word `w` met by a search for `query`. */
  ghost function Record(s: Scores, query: string, w: string): Scores {
    var score := Distance(query, w);
    var tie := if score in s.ties then s.ties[score] + 1 else 0;
    Scores(s.words[tie + score * TIE_SPAN := w],
           s.ties[score := tie],
           if score in s.ties && tie > s.hwm then tie else s.hwm)
  }

  ghost function RecordAll(s: Scores, query: string, list: seq<string>): Scores
    decreases |list|
  {
    if list == [] then s else RecordAll(Record(s, query, list[0]), query, list[1..])
  }

  lemma {:induction false} RecordAllConcat(s: Scores, query: string, a: seq<string>, b: seq<string>)
    ensures RecordAll(s, query, a + b) == RecordAll(RecordAll(s, query, a), query, b)
    decreases |a|
  {
    if a == [] {
      assert a + b == b;
    } else {
      assert (a + b)[1..] == a[1..] + b;
      RecordAllConcat(Record(s, query, a[0]), query, a[1..], b);
    }
  }

  /** The number of words of the list that have score `score`. */
  ghost function Ranked(list: seq<string>, query: string, score: nat): nat {
    if list == [] then 0
    else
      var n := |list| - 1;
      Ranked(list[..n], query, score) + (if Distance(query, list[n]) == score then 1 else 0)
  }

  /** The key given to the `i`-th word of the list. */
  ghost function KeyOf(list: seq<string>, query: string, i: nat): int
    requires i < |list|
  {
    var score := Distance(query, list[i]);
    Ranked(list[..i], query, score) + score * TIE_SPAN
  }

  // ----- Which keys are given out ------------------------------------------------------------------------

  lemma {:induction false} RankedMonotone(list: seq<string>, query: string, score: nat, i: nat)
    requires i <= |list|
    ensures Ranked(list[..i], query, score) <= Ranked(list, query, score)
    decreases |list|
  {
    if i < |list| {
      var n := |list| - 1;
      assert list[..n][..i] == list[..i];
      RankedMonotone(list[..n], query, score, i);
    } else {
      assert list[..i] == list;
    }
  }

  /** The words of one score get the ranks below their number, each from some word. */
  lemma {:induction false} RankIsTaken(list: seq<string>, query: string, score: nat, rank: nat) returns (i: nat)
    requires rank < Ranked(list, query, score)
    ensures i < |list| && Distance(query, list[i]) == score && Ranked(list[..i], query, score) == rank
  {
    var n := |list| - 1;
    if Ranked(list[..n], query, score) == rank {
      i := n;
    } else {
      i := RankIsTaken(list[..n], query, score, rank);
      assert list[..n][..i] == list[..i];
    }
  }

  lemma RankBelowNumber(list: seq<string>, query: string, i: nat)
    requires i < |list|
    ensures Ranked(list[..i], query, Distance(query, list[i])) < Ranked(list, query, Distance(query, list[i]))
  {
    assert list[..i + 1][..i] == list[..i];
    RankedMonotone(list, query, Distance(query, list[i]), i + 1);
  }

  /** No score has so many words that their keys run into those of a greater score that occurs. */
  ghost predicate TieRoom(list: seq<string>, query: string) {
    forall s: nat, t: nat :: s < t && Ranked(list, query, t) > 0 ==> Ranked(list, query, s) <= (t - s) * 4096
  }

  ghost predicate KeysDiffer(list: seq<string>, query: string) {
    forall i, j :: 0 <= i < j < |list| ==> KeyOf(list, query, i) != KeyOf(list, query, j)
  }

  lemma KeysDifferIffRoom(list: seq<string>, query: string)
    ensures KeysDiffer(list, query) <==> TieRoom(list, query)
  {
    if !KeysDiffer(list, query) {
      var i, j :| 0 <= i < j < |list| && KeyOf(list, query, i) == KeyOf(list, query, j);
      EqualKeysNoRoom(list, query, i, j);
    }
    if !TieRoom(list, query) {
      var s: nat, t: nat :| s < t && Ranked(list, query, t) > 0 && Ranked(list, query, s) > (t - s) * TIE_SPAN;
      var i := RankIsTaken(list, query, s, (t - s) * TIE_SPAN);
      var j := RankIsTaken(list, query, t, 0);
      assert KeyOf(list, query, i) == KeyOf(list, query, j);
    }
  }

  lemma EqualKeysNoRoom(list: seq<string>, query: string, i: nat, j: nat)
    requires i < j < |list| && KeyOf(list, query, i) == KeyOf(list, query, j)
    ensures !TieRoom(list, query)
  {
    var s, t := Distance(query, list[i]), Distance(query, list[j]);
    RankBelowNumber(list, query, i);
    RankBelowNumber(list, query, j);
    if s == t {
      assert list[..j][..i] == list[..i] && list[..j][i] == list[i];
      RankBelowNumber(list[..j], query, i);
      assert false;
    } else if s < t {
      assert Ranked(list, query, s) > (t - s) * TIE_SPAN;
    } else {
      assert Ranked(list, query, t) > (s - t) * TIE_SPAN;
    }
  }

  /** The high-water mark is the greatest tie breaker given out, or 0 when nothing was recorded. */
  lemma {:induction false} HwmIsGreatestTie(start: map<int, string>, query: string, list: seq<string>)
    ensures var hwm := RecordAll(Scores(start, map[], 0), query, list).hwm;
            && hwm >= 0 && (forall s: nat :: Ranked(list, query, s) - 1 <= hwm)
            && (if list == [] then hwm == 0 else exists s: nat :: Ranked(list, query, s) - 1 == hwm)
    decreases |list|
  {
    if list != [] {
      var n := |list| - 1;
      var score := Distance(query, list[n]);
      var before := RecordAll(Scores(start, map[], 0), query, list[..n]);
      HwmIsGreatestTie(start, query, list[..n]);
      RecordAllCollects(start, query, list[..n]);
      assert list == list[..n] + [list[n]];
      RecordAllConcat(Scores(start, map[], 0), query, list[..n], [list[n]]);
      assert RecordAll(before, query, [list[n]]) == Record(before, query, list[n]);
      var after := Record(before, query, list[n]);
      assert after.ties[score] == Ranked(list, query, score) - 1;
      forall s: nat
        ensures Ranked(list, query, s) - 1 <= after.hwm
      {
        assert s != score ==> Ranked(list, query, s) == Ranked(list[..n], query, s);
      }
      if n > 0 && after.hwm == before.hwm {
        var s: nat :| Ranked(list[..n], query, s) - 1 == before.hwm;
        assert Ranked(list, query, s) - 1 == before.hwm;
      }
    }
  }

  // ----- Which words survive -----------------------------------------------------------------------------

  /** `w` is stored under some key. */
  ghost predicate InMap(w: string, m: map<int, string>) {
    exists k :: k in m && m[k] == w
  }

  /** The map collected from a list: each word goes to its key, over what was there. */
  ghost function Collected(start: map<int, string>, query: string, list: seq<string>): map<int, string> {
    if list == [] then start
    else
      var n := |list| - 1;
      Collected(start, query, list[..n])[KeyOf(list, query, n) := list[n]]
  }

  lemma KeyOfPrefix(list: seq<string>, query: string, i: nat, n: nat)
    requires i < n <= |list|
    ensures KeyOf(list[..n], query, i) == KeyOf(list, query, i)
  {
    assert list[..n][..i] == list[..i];
  }

  /** The state after collecting a list: the map, and for each score that occurs the last rank given out. */
  ghost predicate Collects(r: Scores, start: map<int, string>, query: string, list: seq<string>) {
    && r.words == Collected(start, query, list)
    && (forall s: nat :: s in r.ties <==> Ranked(list, query, s) > 0)
    && (forall s: nat :: s in r.ties ==> r.ties[s] == Ranked(list, query, s) - 1)
  }

  lemma {:induction false} RecordAllCollects(start: map<int, string>, query: string, list: seq<string>)
    ensures Collects(RecordAll(Scores(start, map[], 0), query, list), start, query, list)
    decreases |list|
  {
    if list != [] {
      hide Distance, Record, Collects;
      var n := |list| - 1;
      var before := RecordAll(Scores(start, map[], 0), query, list[..n]);
      RecordAllCollects(start, query, list[..n]);
      RecordCollects(before, start, query, list);
      assert list == list[..n] + [list[n]];
      RecordAllConcat(Scores(start, map[], 0), query, list[..n], [list[n]]);
      assert RecordAll(before, query, [list[n]]) == Record(before, query, list[n]);
    }
  }

  lemma RecordCollects(before: Scores, start: map<int, string>, query: string, list: seq<string>)
    requires list != [] && Collects(before, start, query, list[..|list| - 1])
    ensures Collects(Record(before, query, list[|list| - 1]), start, query, list)
  {
  }

  /** What is found under a key was there before or is a word of the list. */
  lemma {:induction false} CollectedWords(start: map<int, string>, query: string, list: seq<string>, k: int)
    requires k in Collected(start, query, list)
    ensures InMap(Collected(start, query, list)[k], start) || Collected(start, query, list)[k] in list
    decreases |list|
  {
    if list != [] {
      var n := |list| - 1;
      assert list[n] in list;
      if k != KeyOf(list, query, n) {
        CollectedWords(start, query, list[..n], k);
        assert forall w :: w in list[..n] ==> w in list;
      }
    }
  }

  /** A key that was not in use before leads to a word of the list. */
  lemma {:induction false} CollectedOther(start: map<int, string>, query: string, list: seq<string>, k: int)
    requires k in Collected(start, query, list) && k !in start
    ensures Collected(start, query, list)[k] in list
    decreases |list|
  {
    var n := |list| - 1;
    assert list[n] in list;
    if k != KeyOf(list, query, n) {
      CollectedOther(start, query, list[..n], k);
      assert forall w :: w in list[..n] ==> w in list;
    }
  }

  /** A key in use was in use before or was given out. */
  lemma {:induction false} CollectedKeys(start: map<int, string>, query: string, list: seq<string>, k: int)
    requires k in Collected(start, query, list) && k !in start
    ensures exists i :: 0 <= i < |list| && KeyOf(list, query, i) == k
    decreases |list|
  {
    var n := |list| - 1;
    if k != KeyOf(list, query, n) {
      CollectedKeys(start, query, list[..n], k);
      var i :| 0 <= i < n && KeyOf(list[..n], query, i) == k;
      KeyOfPrefix(list, query, i, n);
    }
  }

  /** And conversely. */
  lemma {:induction false} CollectedKeysOnly(start: map<int, string>, query: string, list: seq<string>, k: int)
    requires k in start || exists i :: 0 <= i < |list| && KeyOf(list, query, i) == k
    ensures k in Collected(start, query, list)
    decreases |list|
  {
    if list != [] {
      var n := |list| - 1;
      if k !in start {
        var i :| 0 <= i < |list| && KeyOf(list, query, i) == k;
        if i < n {
          KeyOfPrefix(list, query, i, n);
          CollectedKeysOnly(start, query, list[..n], k);
        }
      } else {
        CollectedKeysOnly(start, query, list[..n], k);
      }
    }
  }

  /** `k` is one of as many keys from `score * 4096` on as there are words of the score. */
  ghost predicate KeyOfScore(list: seq<string>, query: string, score: nat, k: int) {
    score * 4096 <= k < score * 4096 + Ranked(list, query, score)
  }

  /** These are the keys given out. */
  lemma KeyGivenIff(list: seq<string>, query: string, k: int)
    ensures (exists i :: 0 <= i < |list| && KeyOf(list, query, i) == k) <==>
            exists s: nat :: KeyOfScore(list, query, s, k)
  {
    if i :| 0 <= i < |list| && KeyOf(list, query, i) == k {
      RankBelowNumber(list, query, i);
      assert KeyOfScore(list, query, Distance(query, list[i]), k);
    }
    if s: nat :| KeyOfScore(list, query, s, k) {
      var i := RankIsTaken(list, query, s, k - s * TIE_SPAN);
      assert KeyOf(list, query, i) == k;
    }
  }

  /** After collecting a list the keys in use are those in use before and those given out. */
  lemma KeyInUseIff(start: map<int, string>, query: string, list: seq<string>, k: int)
    ensures k in RecordAll(Scores(start, map[], 0), query, list).words <==>
            k in start || exists s: nat :: KeyOfScore(list, query, s, k)
  {
    RecordAllCollects(start, query, list);
    KeyGivenIff(list, query, k);
    hide KeyOfScore, RecordAll;
    if k in Collected(start, query, list) && k !in start {
      CollectedKeys(start, query, list, k);
    }
    if k in start || exists i :: 0 <= i < |list| && KeyOf(list, query, i) == k {
      CollectedKeysOnly(start, query, list, k);
    }
  }

  /** With keys that differ nothing is overwritten. */
  lemma {:induction false} CollectedAll(start: map<int, string>, query: string, list: seq<string>)
    requires KeysDiffer(list, query)
    requires forall i :: 0 <= i < |list| ==> KeyOf(list, query, i) !in start
    ensures forall w :: InMap(w, Collected(start, query, list)) <==> InMap(w, start) || w in list
    decreases |list|
  {
    if list != [] {
      var n := |list| - 1;
      var before := list[..n];
      forall i | 0 <= i < n
        ensures KeyOf(before, query, i) == KeyOf(list, query, i)
      {
        KeyOfPrefix(list, query, i, n);
      }
      CollectedAll(start, query, before);
      if KeyOf(list, query, n) in Collected(start, query, before) {
        CollectedKeys(start, query, before, KeyOf(list, query, n));
      }
      NewKeyAddsValue(Collected(start, query, before), KeyOf(list, query, n), list[n]);
      assert list == before + [list[n]];
    }
  }

  lemma NewKeyAddsValue(m: map<int, string>, k: int, w: string)
    requires k !in m
    ensures forall v :: InMap(v, m[k := w]) <==> InMap(v, m) || v == w
  {
    var n := m[k := w];
    forall v
      ensures InMap(v, n) <==> InMap(v, m) || v == w
    {
      if InMap(v, m) {
        var j :| j in m && m[j] == v;
        assert n[j] == v;
      }
      assert n[k] == w;
    }
  }

  /** A word can only be found under its own key. */
  lemma {:induction false} CollectedUnderKey(start: map<int, string>, query: string, list: seq<string>, i: nat,
                                             k: int)
    requires i < |list| && NoRepeats(list) && !InMap(list[i], start)
    requires k in Collected(start, query, list) && Collected(start, query, list)[k] == list[i]
    ensures k == KeyOf(list, query, i)
    decreases |list|
  {
    var n := |list| - 1;
    var c := Collected(start, query, list[..n]);
    assert list[n] !in list[..n];
    if k in c {
      CollectedWords(start, query, list[..n], k);
    }
    if i < n && k != KeyOf(list, query, n) {
      CollectedUnderKey(start, query, list[..n], i, k);
      KeyOfPrefix(list, query, i, n);
    }
  }

  /** A word whose key is given out again is lost. */
  lemma {:induction false} OverwrittenIsLost(start: map<int, string>, query: string, list: seq<string>, i: nat, j: nat)
    requires i < j < |list| && NoRepeats(list) && !InMap(list[i], start)
    requires KeyOf(list, query, i) == KeyOf(list, query, j)
    ensures !InMap(list[i], Collected(start, query, list))
    decreases |list|
  {
    var n := |list| - 1;
    if j < n {
      KeyOfPrefix(list, query, i, n);
      KeyOfPrefix(list, query, j, n);
      OverwrittenIsLost(start, query, list[..n], i, j);
    } else {
      var c := Collected(start, query, list);
      forall k | k in c && c[k] == list[i]
        ensures k == KeyOf(list, query, j)
      {
        CollectedUnderKey(start, query, list, i, k);
      }
      assert c[KeyOf(list, query, j)] == list[j];
    }
  }

  /** A word whose key is not given out again stays. */
  lemma {:induction false} LastOfKeyStays(start: map<int, string>, query: string, list: seq<string>, i: nat)
    requires i < |list| && forall j :: i < j < |list| ==> KeyOf(list, query, j) != KeyOf(list, query, i)
    ensures KeyOf(list, query, i) in Collected(start, query, list)
    ensures Collected(start, query, list)[KeyOf(list, query, i)] == list[i]
    decreases |list|
  {
    var n := |list| - 1;
    if i < n {
      forall j | i <= j < n
        ensures KeyOf(list[..n], query, j) == KeyOf(list, query, j)
      {
        KeyOfPrefix(list, query, j, n);
      }
      LastOfKeyStays(start, query, list[..n], i);
    }
  }

  /** Exactly which words survive: those whose key no later word of the list is given. */
  lemma SurvivesIffLastOfKey(start: map<int, string>, query: string, list: seq<string>, i: nat)
    requires i < |list| && NoRepeats(list) && !InMap(list[i], start)
    ensures InMap(list[i], RecordAll(Scores(start, map[], 0), query, list).words)
            <==> forall j :: i < j < |list| ==> KeyOf(list, query, j) != KeyOf(list, query, i)
  {
    RecordAllCollects(start, query, list);
    if j :| i < j < |list| && KeyOf(list, query, j) == KeyOf(list, query, i) {
      OverwrittenIsLost(start, query, list, i, j);
    } else {
      LastOfKeyStays(start, query, list, i);
    }
  }

  /**
   Exactly when nothing is lost: starting from at most an entry under key 0, collecting distinct words none
   of which is the query keeps all of them if and only if no score runs into a greater one.
   */
  lemma AllKeptIffRoom(start: map<int, string>, query: string, list: seq<string>)
    requires NoRepeats(list)
    requires start.Keys <= {0}
    requires forall w :: w in list ==> w != query && !InMap(w, start)
    ensures var r := RecordAll(Scores(start, map[], 0), query, list);
            (forall w :: InMap(w, r.words) <==> InMap(w, start) || w in list) <==> TieRoom(list, query)
  {
    RecordAllCollects(start, query, list);
    KeysDifferIffRoom(list, query);
    if KeysDiffer(list, query) {
      forall i | 0 <= i < |list|
        ensures KeyOf(list, query, i) != 0
      {
        assert list[i] in list;
        ZeroIffEqual(query, list[i]);
      }
      CollectedAll(start, query, list);
    } else {
      var i, j :| 0 <= i < j < |list| && KeyOf(list, query, i) == KeyOf(list, query, j);
      assert list[i] in list;
      OverwrittenIsLost(start, query, list, i, j);
    }
  }
}
