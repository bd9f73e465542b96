/**
 The search for phrases as a recursion on values. A phrase is a list of positions in the sorted list of
 partial words; the search extends a phrase by words from a position on and prunes it by its letters.
 */
module Searches {
  import opened Lists
  import opened Text

  /** The partial words: ascending, and each a proper part of the master's letters. */
  ghost predicate Partials(words: seq<string>, master: multiset<char>) {
    && StrictlySorted(words)
    && forall i :: 0 <= i < |words| ==> IsWord(words[i]) && Letters(words[i]) < master
  }

  ghost predicate Positions(words: seq<string>, q: seq<nat>) {
    forall k :: 0 <= k < |q| ==> q[k] < |words|
  }

  /** The words at the given positions. */
  ghost function Pick(words: seq<string>, q: seq<nat>): seq<string> {
    seq(|q|, k requires 0 <= k < |q| => if q[k] < |words| then words[q[k]] else "")
  }

  ghost function Phrase(words: seq<string>, q: seq<nat>): string {
    Join(Pick(words, q))
  }

  ghost function Total(words: seq<string>, q: seq<nat>): multiset<char> {
    AllLetters(Pick(words, q))
  }

  lemma PickPart(words: seq<string>, q: seq<nat>, n: nat)
    requires n <= |q|
    ensures Pick(words, q[..n]) == Pick(words, q)[..n]
  {
  }

  /** The positions never go back: the words are in map order. */
  ghost predicate NonDecreasing(q: seq<nat>) {
    |q| <= 1 || (NonDecreasing(q[..|q| - 1]) && q[|q| - 2] <= q[|q| - 1])
  }

  lemma {:induction false} NonDecreasingPart(q: seq<nat>, n: nat)
    requires NonDecreasing(q) && n <= |q|
    ensures NonDecreasing(q[..n])
    ensures 0 < n < |q| ==> q[n - 1] <= q[n]
    decreases |q|
  {
    if n < |q| - 1 {
      assert q[..|q| - 1][..n] == q[..n];
      NonDecreasingPart(q[..|q| - 1], n);
    } else if n == |q| {
      assert q[..n] == q;
    }
  }

  /** A phrase the search can stand at: some words in map order that leave letters of the master over. */
  ghost predicate Partial(words: seq<string>, master: multiset<char>, q: seq<nat>) {
    q != [] && Positions(words, q) && NonDecreasing(q) && Total(words, q) < master
  }

  lemma {:induction false} SubmultisetSize(a: multiset<char>, b: multiset<char>)
    requires a < b
    ensures |a| < |b|
  {
    assert b == a + (b - a);
    assert |b| == |a| + |b - a|;
    var ch :| b[ch] > a[ch];
    assert ch in b - a;
  }

  lemma TotalAppend(words: seq<string>, master: multiset<char>, q: seq<nat>, i: nat)
    requires Positions(words, q) && i < |words| && Partials(words, master)
    ensures Positions(words, q + [i]) && Total(words, q + [i]) == Total(words, q) + Letters(words[i])
    ensures Total(words, q) < Total(words, q + [i]) && |Total(words, q)| < |Total(words, q + [i])|
  {
    assert Pick(words, q + [i])[..|q|] == Pick(words, q);
    LettersOfWord(words[i]);
  }

  lemma AppendNonDecreasing(prefix: seq<nat>, i: nat)
    requires prefix != [] && NonDecreasing(prefix) && prefix[|prefix| - 1] <= i
    ensures NonDecreasing(prefix + [i])
  {
  }

  /** Extending a phrase by a word moves it towards the master: the measure that ends the search. */
  lemma Extend(words: seq<string>, master: multiset<char>, prefix: seq<nat>, i: nat)
    requires Partials(words, master) && Partial(words, master, prefix)
    requires i < |words| && prefix[|prefix| - 1] <= i
    ensures Positions(words, prefix + [i]) && NonDecreasing(prefix + [i])
    ensures |Total(words, prefix)| < |master| && |Total(words, prefix)| < |Total(words, prefix + [i])|
    ensures Total(words, prefix + [i]) < master ==>
              Partial(words, master, prefix + [i]) && |Total(words, prefix + [i])| < |master|
  {
    SubmultisetSize(Total(words, prefix), master);
    TotalAppend(words, master, prefix, i);
    AppendNonDecreasing(prefix, i);
    if Total(words, prefix + [i]) < master {
      SubmultisetSize(Total(words, prefix + [i]), master);
    }
  }

  /**
   The phrases found from `prefix` with next words from position `i` on, in the order found. Without
   `dupes` a word equal to the whole phrase so far is skipped.
   */
  ghost function Search(words: seq<string>, master: multiset<char>, dupes: bool, prefix: seq<nat>, i: nat)
    : seq<seq<nat>>
    requires Partials(words, master) && Partial(words, master, prefix)
    requires i <= |words| && prefix[|prefix| - 1] <= i
    decreases |master| - |Total(words, prefix)|, |words| - i
  {
    if i == |words| then []
    else
      Extend(words, master, prefix, i);
      Step(words, master, dupes, prefix, i) + Search(words, master, dupes, prefix, i + 1)
  }

  /** The phrases found with the word at position `i` next. */
  ghost function Step(words: seq<string>, master: multiset<char>, dupes: bool, prefix: seq<nat>, i: nat)
    : seq<seq<nat>>
    requires Partials(words, master) && Partial(words, master, prefix)
    requires i < |words| && prefix[|prefix| - 1] <= i
    decreases |master| - |Total(words, prefix)|, |words| - i, 0
  {
    var next := prefix + [i];
    Extend(words, master, prefix, i);
    if !dupes && words[i] == Phrase(words, prefix) then []
    else if Total(words, next) == master then [next]
    else if Total(words, next) < master then
      Search(words, master, dupes, next, i)
    else []
  }

  // ----- What is found -----------------------------------------------------------------------------------

  /**
   A phrase of two or more words in map order with exactly the master's letters. Without `dupes` its first
   two words differ; later words may repeat.
   */
  ghost predicate Solution(words: seq<string>, master: multiset<char>, dupes: bool, q: seq<nat>) {
    && |q| >= 2 && Positions(words, q) && NonDecreasing(q)
    && Total(words, q) == master
    && (dupes || q[0] != q[1])
  }

  /** `q` goes on after `prefix` with a word at position `i` or later. */
  ghost predicate GoesOn(prefix: seq<nat>, i: nat, q: seq<nat>) {
    |prefix| < |q| && q[..|prefix|] == prefix && i <= q[|prefix|]
  }

  /** The duplicate test can only succeed on a one-word phrase: a longer one contains a space. */
  lemma DuplicateTest(words: seq<string>, master: multiset<char>, prefix: seq<nat>, i: nat)
    requires Partials(words, master) && Partial(words, master, prefix) && i < |words|
    ensures words[i] == Phrase(words, prefix) <==> |prefix| == 1 && prefix[0] == i
  {
    var n := |prefix| - 1;
    if n == 0 {
      SortedPositions(words, i, prefix[0]);
    } else {
      JoinHasSpace(Pick(words, prefix));
    }
  }

  lemma {:induction false} TotalOfPart(words: seq<string>, q: seq<nat>, n: nat)
    requires Positions(words, q) && n <= |q|
    ensures Total(words, q[..n]) <= Total(words, q)
    decreases |q|
  {
    if n < |q| {
      var m := |q| - 1;
      assert q[..m][..n] == q[..n];
      assert Total(words, q) == Total(words, q[..m]) + Letters(Pick(words, q)[m]) by {
        PickPart(words, q, m);
      }
      TotalOfPart(words, q[..m], n);
      hide Total;
    } else {
      assert q[..n] == q;
    }
  }

  /** Every proper beginning of a solution leaves letters over, so pruning never cuts a solution off. */
  lemma BeginningIsPartial(words: seq<string>, master: multiset<char>, q: seq<nat>, n: nat)
    requires Partials(words, master) && Positions(words, q) && NonDecreasing(q) && Total(words, q) == master
    requires 0 < n < |q|
    ensures Partial(words, master, q[..n])
  {
    hide Total, Partials, NonDecreasing;
    NonDecreasingPart(q, n);
    assert q[..n + 1] == q[..n] + [q[n]];
    TotalOfPart(words, q, n + 1);
    TotalAppend(words, master, q[..n], q[n]);
    LessThrough(Total(words, q[..n]), Total(words, q[..n + 1]), master);
  }

  lemma LessThrough(a: multiset<char>, b: multiset<char>, c: multiset<char>)
    requires a < b && b <= c
    ensures a < c
  {
  }

  /** What a phrase found from `prefix` must satisfy besides going on after it. */
  ghost predicate Matches(words: seq<string>, master: multiset<char>, dupes: bool, prefix: seq<nat>, q: seq<nat>) {
    && |q| >= 2 && Positions(words, q) && NonDecreasing(q) && Total(words, q) == master
    && (dupes || |prefix| > 1 || q[0] != q[1])
  }

  /** Soundness and completeness of the search from any point. */
  lemma {:induction false} SearchExact(words: seq<string>, master: multiset<char>, dupes: bool, prefix: seq<nat>,
                                       i: nat, q: seq<nat>)
    requires Partials(words, master) && Partial(words, master, prefix)
    requires i <= |words| && prefix[|prefix| - 1] <= i
    ensures q in Search(words, master, dupes, prefix, i) <==>
            GoesOn(prefix, i, q) && Matches(words, master, dupes, prefix, q)
    decreases |master| - |Total(words, prefix)|, |words| - i
  {
    hide Partials, Partial, Total, Phrase;
    if i < |words| {
      Extend(words, master, prefix, i);
      StepExact(words, master, dupes, prefix, i, q);
      SearchExact(words, master, dupes, prefix, i + 1, q);
      GoesOnNow(prefix, i, q);
    }
  }

  lemma GoesOnNow(prefix: seq<nat>, i: nat, q: seq<nat>)
    ensures GoesOn(prefix, i, q) <==> GoesOn(prefix, i + 1, q) || prefix + [i] <= q
    ensures prefix + [i] <= q ==> prefix <= q && q[|prefix|] == i
  {
  }

  lemma {:induction false} StepExact(words: seq<string>, master: multiset<char>, dupes: bool, prefix: seq<nat>,
                                     i: nat, q: seq<nat>)
    requires Partials(words, master) && Partial(words, master, prefix)
    requires i < |words| && prefix[|prefix| - 1] <= i
    ensures q in Step(words, master, dupes, prefix, i) <==>
            prefix + [i] <= q && Matches(words, master, dupes, prefix, q)
    decreases |master| - |Total(words, prefix)|, |words| - i, 0
  {
    hide Partials, Total, Phrase, Positions, GoesOn, Matches;
    var next := prefix + [i];
    Extend(words, master, prefix, i);
    if !dupes && words[i] == Phrase(words, prefix) {
      SkippedFitsNot(words, master, prefix, i, q);
    } else if Total(words, next) == master {
      CompleteFits(words, master, dupes, prefix, i, q);
    } else if Total(words, next) < master {
      SearchExact(words, master, dupes, next, i, q);
      DuplicateTest(words, master, prefix, i);
      StepsOn(words, master, dupes, prefix, i, q);
    } else {
      PrunedFitsNot(words, master, dupes, prefix, next, q);
    }
  }

  lemma PrunedFitsNot(words: seq<string>, master: multiset<char>, dupes: bool, prefix: seq<nat>, next: seq<nat>,
                      q: seq<nat>)
    requires Positions(words, next) && !(Total(words, next) <= master)
    ensures next <= q ==> !Matches(words, master, dupes, prefix, q)
  {
    if next <= q && Positions(words, q) {
      assert q[..|next|] == next;
      TotalOfPart(words, q, |next|);
    }
  }

  lemma SkippedFitsNot(words: seq<string>, master: multiset<char>, prefix: seq<nat>, i: nat, q: seq<nat>)
    requires Partials(words, master) && Partial(words, master, prefix)
    requires i < |words| && words[i] == Phrase(words, prefix)
    ensures prefix + [i] <= q ==> !Matches(words, master, false, prefix, q)
  {
    DuplicateTest(words, master, prefix, i);
    var next := prefix + [i];
    assert next <= q ==> q[0] == next[0] && q[1] == next[1];
  }

  lemma CompleteFits(words: seq<string>, master: multiset<char>, dupes: bool, prefix: seq<nat>, i: nat, q: seq<nat>)
    requires Partials(words, master) && Partial(words, master, prefix)
    requires i < |words| && prefix[|prefix| - 1] <= i && Total(words, prefix + [i]) == master
    requires dupes || words[i] != Phrase(words, prefix)
    ensures q == prefix + [i] <==> prefix + [i] <= q && Matches(words, master, dupes, prefix, q)
  {
    DuplicateTest(words, master, prefix, i);
    AppendNonDecreasing(prefix, i);
    if prefix + [i] <= q && Matches(words, master, dupes, prefix, q) {
      NothingLeft(words, master, prefix + [i], q);
    }
  }

  /** A phrase with the master's letters cannot be continued to another one. */
  lemma NothingLeft(words: seq<string>, master: multiset<char>, next: seq<nat>, q: seq<nat>)
    requires Partials(words, master) && Positions(words, q) && NonDecreasing(q)
    requires next != [] && next <= q && Total(words, next) == Total(words, q) == master
    ensures q == next
  {
    assert q[..|next|] == next;
    if |next| < |q| {
      BeginningIsPartial(words, master, q, |next|);
    }
  }

  /** Going on after `prefix + [i]` from position `i` is all that can follow `prefix + [i]`. */
  lemma StepsOn(words: seq<string>, master: multiset<char>, dupes: bool, prefix: seq<nat>, i: nat, q: seq<nat>)
    requires prefix != [] && Positions(words, prefix + [i]) && Total(words, prefix + [i]) != master
    requires dupes || |prefix| > 1 || prefix[0] != i
    ensures GoesOn(prefix + [i], i, q) && Matches(words, master, dupes, prefix + [i], q) <==>
            prefix + [i] <= q && Matches(words, master, dupes, prefix, q)
  {
    var next := prefix + [i];
    if next <= q && Matches(words, master, dupes, prefix, q) {
      assert q != next;
      NonDecreasingPart(q, |next|);
      assert q[|next| - 1] == next[|next| - 1] == i;
    }
    if next <= q {
      assert q[0] == next[0] && q[1] == next[1];
    }
  }

  /** The search finds no phrase twice. */
  lemma {:induction false} SearchNoRepeats(words: seq<string>, master: multiset<char>, dupes: bool,
                                           prefix: seq<nat>, i: nat)
    requires Partials(words, master) && Partial(words, master, prefix)
    requires i <= |words| && prefix[|prefix| - 1] <= i
    ensures NoRepeats(Search(words, master, dupes, prefix, i))
    decreases |master| - |Total(words, prefix)|, |words| - i
  {
    hide Partials, Partial, Total, Phrase;
    if i < |words| {
      Extend(words, master, prefix, i);
      StepNoRepeats(words, master, dupes, prefix, i);
      SearchNoRepeats(words, master, dupes, prefix, i + 1);
      var now, later := Step(words, master, dupes, prefix, i), Search(words, master, dupes, prefix, i + 1);
      forall q | q in now
        ensures q !in later
      {
        FoundNowNotLater(words, master, dupes, prefix, i, q);
      }
      NoRepeatsConcat(now, later);
    }
  }

  lemma {:induction false} StepNoRepeats(words: seq<string>, master: multiset<char>, dupes: bool,
                                         prefix: seq<nat>, i: nat)
    requires Partials(words, master) && Partial(words, master, prefix)
    requires i < |words| && prefix[|prefix| - 1] <= i
    ensures NoRepeats(Step(words, master, dupes, prefix, i))
    decreases |master| - |Total(words, prefix)|, |words| - i, 0
  {
    hide Partials, Total, Phrase;
    Extend(words, master, prefix, i);
    if Descends(words, master, dupes, prefix, i) {
      SearchNoRepeats(words, master, dupes, prefix + [i], i);
    }
  }

  lemma FoundNowNotLater(words: seq<string>, master: multiset<char>, dupes: bool, prefix: seq<nat>, i: nat,
                         q: seq<nat>)
    requires Partials(words, master) && Partial(words, master, prefix)
    requires i < |words| && prefix[|prefix| - 1] <= i
    requires q in Step(words, master, dupes, prefix, i)
    ensures q !in Search(words, master, dupes, prefix, i + 1)
  {
    StepExact(words, master, dupes, prefix, i, q);
    SearchExact(words, master, dupes, prefix, i + 1, q);
    GoesOnNow(prefix, i, q);
  }

  // ----- The share of one thread -------------------------------------------------------------------------

  /** Advances an iterator `n` times, stopping at the end. */
  function Advance(i: nat, n: nat, end: nat): nat {
    if i + n < end then i + n else if i < end then end else i
  }

  /** The phrases found by a thread that stands at first word `i` and goes `stride` words ahead each time. */
  ghost function ThreadSearch(words: seq<string>, master: multiset<char>, dupes: bool, i: nat, stride: nat)
    : seq<seq<nat>>
    requires Partials(words, master) && stride > 0
    decreases |words| - i
  {
    if i >= |words| then []
    else
      FirstWord(words, master, dupes, i) + ThreadSearch(words, master, dupes, Advance(i, stride, |words|), stride)
  }

  /** The phrases found that begin with the word at position `i`. */
  ghost function FirstWord(words: seq<string>, master: multiset<char>, dupes: bool, i: nat): seq<seq<nat>>
    requires Partials(words, master) && i < |words|
  {
    SingleIsPartial(words, master, i);
    Search(words, master, dupes, [i], i)
  }

  lemma SingleIsPartial(words: seq<string>, master: multiset<char>, i: nat)
    requires Partials(words, master) && i < |words|
    ensures Partial(words, master, [i]) && Total(words, [i]) == Letters(words[i])
    ensures Phrase(words, [i]) == words[i]
  {
    assert Pick(words, [i]) == [words[i]];
    assert AllLetters([words[i]][..0]) == multiset{};
  }

  /** A thread finds exactly the solutions whose first word is `stride` steps, or none, from where it stands. */
  lemma {:induction false} ThreadSearchExact(words: seq<string>, master: multiset<char>, dupes: bool, i: nat,
                                             stride: nat, q: seq<nat>)
    requires Partials(words, master) && stride > 0
    ensures q in ThreadSearch(words, master, dupes, i, stride) <==>
            Solution(words, master, dupes, q) && q[0] >= i && (q[0] - i) % stride == 0
    decreases |words| - i
  {
    hide Partials, Partial, Total, Phrase, Search;
    if i < |words| {
      SingleIsPartial(words, master, i);
      SearchExact(words, master, dupes, [i], i, q);
      ThreadSearchExact(words, master, dupes, Advance(i, stride, |words|), stride, q);
      if |q| >= 2 && NonDecreasing(q) {
        NonDecreasingPart(q, 1);
        assert q[0] == i ==> q[..1] == [i];
      }
      if q != [] {
        StrideStep(i, stride, q[0]);
      }
    }
  }

  lemma StrideStep(i: nat, stride: nat, x: nat)
    requires stride > 0
    ensures x >= i && (x - i) % stride == 0 <==> x == i || (x >= i + stride && (x - (i + stride)) % stride == 0)
  {
    if x >= i + stride {
      ModStep(x - i, stride);
    } else if x >= i {
      ModUnique(x - i, stride, 0, x - i);
    }
  }

  lemma ModUnique(a: int, n: int, q: int, r: int)
    requires n > 0 && a == q * n + r && 0 <= r < n
    ensures a % n == r
  {
    var d := q - a / n;
    ProductBound(d, n);
    assert a == (a / n) * n + a % n;
    assert d * n == a % n - r;
  }

  lemma ProductBound(d: int, n: int)
    requires n > 0
    ensures d >= 1 ==> d * n >= n
    ensures d <= -1 ==> d * n <= -n
  {
  }

  lemma ModStep(x: nat, n: nat)
    requires n > 0 && x >= n
    ensures x % n == (x - n) % n
  {
    var y := x - n;
    assert y == (y / n) * n + y % n;
    assert x == (y / n + 1) * n + y % n;
    ModUnique(x, n, y / n + 1, y % n);
  }

  lemma {:induction false} ThreadSearchNoRepeats(words: seq<string>, master: multiset<char>, dupes: bool, i: nat,
                                                 stride: nat)
    requires Partials(words, master) && stride > 0
    ensures NoRepeats(ThreadSearch(words, master, dupes, i, stride))
    decreases |words| - i
  {
    if i < |words| {
      var next := Advance(i, stride, |words|);
      SingleIsPartial(words, master, i);
      SearchNoRepeats(words, master, dupes, [i], i);
      ThreadSearchNoRepeats(words, master, dupes, next, stride);
      var now, later := Search(words, master, dupes, [i], i), ThreadSearch(words, master, dupes, next, stride);
      forall q | q in now
        ensures q !in later
      {
        SearchExact(words, master, dupes, [i], i, q);
        ThreadSearchExact(words, master, dupes, next, stride, q);
        assert q[..1][0] == q[0];
      }
      NoRepeatsConcat(now, later);
    }
  }

  /** The strides of all threads together meet every solution exactly once: in the thread of its first word. */
  lemma StridesPartition(words: seq<string>, master: multiset<char>, dupes: bool, threads: nat, t: nat, q: seq<nat>)
    requires Partials(words, master) && t < threads
    ensures q in ThreadSearch(words, master, dupes, t, threads) <==>
            Solution(words, master, dupes, q) && q[0] % threads == t
  {
    ThreadSearchExact(words, master, dupes, t, threads, q);
    if q != [] {
      Remainder(q[0], t, threads);
    }
  }

  lemma Remainder(x: nat, t: nat, n: nat)
    requires t < n
    ensures x >= t && (x - t) % n == 0 <==> x % n == t
  {
    if x >= t && (x - t) % n == 0 {
      ModUnique(x, n, (x - t) / n, t);
    }
    if x % n == t {
      assert x / n >= 0;
      assert x == (x / n) * n + t;
      ModUnique(x - t, n, x / n, 0);
    }
  }

  // ----- The order in which phrases are found ------------------------------------------------------------

  /** The phrases agree up to a place where the one has the earlier word. */
  ghost predicate Comes(q: seq<nat>, r: seq<nat>) {
    exists k :: 0 <= k < |q| && k < |r| && q[..k] == r[..k] && q[k] < r[k]
  }

  ghost predicate Ascending(list: seq<seq<nat>>) {
    forall i, j :: 0 <= i < j < |list| ==> Comes(list[i], list[j])
  }

  lemma AscendingConcat(a: seq<seq<nat>>, b: seq<seq<nat>>)
    requires Ascending(a) && Ascending(b) && forall q, r :: q in a && r in b ==> Comes(q, r)
    ensures Ascending(a + b)
  {
    hide Comes;
    forall i, j | 0 <= i < j < |a + b|
      ensures Comes((a + b)[i], (a + b)[j])
    {
      if i < |a| <= j {
        assert a[i] in a && b[j - |a|] in b;
      }
    }
  }

  /** The search finds phrases in the order of their words. */
  lemma {:induction false} SearchAscending(words: seq<string>, master: multiset<char>, dupes: bool,
                                           prefix: seq<nat>, i: nat)
    requires Partials(words, master) && Partial(words, master, prefix)
    requires i <= |words| && prefix[|prefix| - 1] <= i
    ensures Ascending(Search(words, master, dupes, prefix, i))
    decreases |master| - |Total(words, prefix)|, |words| - i
  {
    hide Partials, Partial, Total, Phrase, Comes;
    if i < |words| {
      Extend(words, master, prefix, i);
      StepAscending(words, master, dupes, prefix, i);
      SearchAscending(words, master, dupes, prefix, i + 1);
      var now, later := Step(words, master, dupes, prefix, i), Search(words, master, dupes, prefix, i + 1);
      forall q, r | q in now && r in later
        ensures Comes(q, r)
      {
        StepExact(words, master, dupes, prefix, i, q);
        SearchExact(words, master, dupes, prefix, i + 1, r);
        NowComesFirst(prefix, i, q, r);
      }
      AscendingConcat(now, later);
    }
  }

  lemma {:induction false} StepAscending(words: seq<string>, master: multiset<char>, dupes: bool,
                                         prefix: seq<nat>, i: nat)
    requires Partials(words, master) && Partial(words, master, prefix)
    requires i < |words| && prefix[|prefix| - 1] <= i
    ensures Ascending(Step(words, master, dupes, prefix, i))
    decreases |master| - |Total(words, prefix)|, |words| - i, 0
  {
    hide Partials, Total, Phrase, Comes;
    Extend(words, master, prefix, i);
    if Descends(words, master, dupes, prefix, i) {
      SearchAscending(words, master, dupes, prefix + [i], i);
    }
  }

  lemma NowComesFirst(prefix: seq<nat>, i: nat, q: seq<nat>, r: seq<nat>)
    requires prefix + [i] <= q && GoesOn(prefix, i + 1, r)
    ensures Comes(q, r)
  {
    var k := |prefix|;
    assert q[..k] == (prefix + [i])[..k] == prefix;
    assert q[k] == (prefix + [i])[k];
  }

  /** And so does a thread. */
  lemma {:induction false} ThreadSearchAscending(words: seq<string>, master: multiset<char>, dupes: bool, i: nat,
                                                 stride: nat)
    requires Partials(words, master) && stride > 0
    ensures Ascending(ThreadSearch(words, master, dupes, i, stride))
    decreases |words| - i
  {
    hide Partials, Total, Phrase, Comes;
    if i < |words| {
      var next := Advance(i, stride, |words|);
      SingleIsPartial(words, master, i);
      SearchAscending(words, master, dupes, [i], i);
      ThreadSearchAscending(words, master, dupes, next, stride);
      var now, later := FirstWord(words, master, dupes, i), ThreadSearch(words, master, dupes, next, stride);
      forall q, r | q in now && r in later
        ensures Comes(q, r)
      {
        SearchExact(words, master, dupes, [i], i, q);
        ThreadSearchExact(words, master, dupes, next, stride, r);
        FirstComesFirst(i, q, r);
      }
      AscendingConcat(now, later);
    }
  }

  lemma FirstComesFirst(i: nat, q: seq<nat>, r: seq<nat>)
    requires GoesOn([i], i, q) && r != [] && r[0] > i
    ensures Comes(q, r)
  {
    assert q[..1][0] == q[0] && q[..0] == r[..0];
  }

  // ----- The depth of the search -------------------------------------------------------------------------

  /** The number of scratch buffers; a phrase of `k` words is extended with buffer `k - 1`. */
  const BUFFERS := 64

  /** The search from this point on only asks for buffers that exist. */
  ghost predicate InBounds(words: seq<string>, master: multiset<char>, dupes: bool, prefix: seq<nat>, i: nat)
    requires Partials(words, master) && Partial(words, master, prefix)
    requires i <= |words| && prefix[|prefix| - 1] <= i
    decreases |master| - |Total(words, prefix)|, |words| - i
  {
    i == |words| ||
    (var next := prefix + [i];
     Extend(words, master, prefix, i);
     && (Descends(words, master, dupes, prefix, i) ==>
           |prefix| - 1 < BUFFERS && InBounds(words, master, dupes, next, i))
     && InBounds(words, master, dupes, prefix, i + 1))
  }

  /** The search goes one level deeper with the word at position `i`. */
  ghost predicate Descends(words: seq<string>, master: multiset<char>, dupes: bool, prefix: seq<nat>, i: nat)
    requires i < |words| && prefix != [] && Positions(words, prefix)
  {
    (dupes || words[i] != Phrase(words, prefix)) && Total(words, prefix + [i]) < master
  }

  lemma {:induction false} WordsHaveLetters(words: seq<string>, master: multiset<char>, q: seq<nat>)
    requires Partials(words, master) && Positions(words, q)
    ensures |q| <= |Total(words, q)|
    decreases |q|
  {
    if q != [] {
      var n := |q| - 1;
      WordsHaveLetters(words, master, q[..n]);
      TotalAppend(words, master, q[..n], q[n]);
      assert q[..n] + [q[n]] == q;
    }
  }

  lemma {:induction false} ShortMasterInBounds(words: seq<string>, master: multiset<char>, dupes: bool,
                                               prefix: seq<nat>, i: nat)
    requires Partials(words, master) && Partial(words, master, prefix) && |master| <= 66
    requires i <= |words| && prefix[|prefix| - 1] <= i
    ensures InBounds(words, master, dupes, prefix, i)
    decreases |master| - |Total(words, prefix)|, |words| - i
  {
    hide Partials, Partial, Total, Phrase, Positions;
    if i < |words| {
      var next := prefix + [i];
      Extend(words, master, prefix, i);
      if Total(words, next) < master {
        WordsHaveLetters(words, master, next);
        ShortMasterInBounds(words, master, dupes, next, i);
      }
      ShortMasterInBounds(words, master, dupes, prefix, i + 1);
    }
  }
}
