/**
 How deep the search goes: the exact size of a master up to which the scratch buffers of the combiner suffice.
 Beyond it, masters whose letters can still be counted make the search run out of buffers.
 */
module Depths {
  import opened Combines
  import opened Lists
  import opened OccupancyHashes
  import opened Searches
  import opened Text

  /** The most letters a master can have whose sums of parts can be counted: 63 each of 40. */
  const CAPACITY := 2520

  lemma {:induction false} SizeBound(m: multiset<char>, letters: set<char>, most: nat)
    requires forall ch :: ch in m ==> ch in letters && m[ch] <= most
    ensures |m| <= |letters| * most
    decreases |letters|
  {
    if letters == {} {
      assert m == multiset{};
    } else {
      var ch := SomeElement(letters);
      SizeBound(m[ch := 0], letters - {ch}, most);
      assert |m| == |m[ch := 0]| + m[ch];
    }
  }

  lemma FittingMasterSize(master: multiset<char>)
    requires MasterFits(master)
    ensures |master| <= CAPACITY
  {
    SizeBound(master, Distinct(master), 63);
  }

  // ----- A master that is too long -----------------------------------------------------------------------

  /** Which symbol is the `j`-th letter: one symbol 0, then 63 each of 39 others, then more of symbol 0. */
  function LetterAt(j: nat): (i: nat)
    requires j < CAPACITY
    ensures i < MAX_CHARS_PER_WORD
  {
    if 1 <= j <= 39 * 63 then 1 + (j - 1) / 63 else 0
  }

  /** A master of `n` letters. */
  function Long(n: nat): multiset<char>
    requires n <= CAPACITY
  {
    if n == 0 then multiset{} else Long(n - 1) + multiset{Symbol(LetterAt(n - 1))}
  }

  lemma LongNext(n: nat)
    requires 0 < n <= CAPACITY
    ensures Long(n) == Long(n - 1) + multiset{Symbol(LetterAt(n - 1))}
  {
  }

  lemma NoLongLetters()
    ensures Long(0) == multiset{}
  {
  }

  /** How many of the first `n` letters are symbol `i`. */
  function CountUpTo(n: nat, i: nat): nat {
    if i == 0 then (if n <= 39 * 63 then (if n == 0 then 0 else 1) else n - 39 * 63)
    else if n <= 63 * i - 62 then 0
    else if n <= 63 * i + 1 then n - (63 * i - 62)
    else 63
  }

  lemma {:induction false} LongCounts(n: nat, i: nat)
    requires n <= CAPACITY && i < MAX_CHARS_PER_WORD
    ensures Long(n)[Symbol(i)] == CountUpTo(n, i)
    decreases n
  {
    if n > 0 {
      LongCounts(n - 1, i);
      SymbolsDiffer(LetterAt(n - 1), i);
    }
  }

  lemma {:induction false} LongLetters(n: nat)
    requires n <= CAPACITY
    ensures |Long(n)| == n
    ensures forall ch :: ch in Long(n) ==> ch in Symbols(MAX_CHARS_PER_WORD)
    decreases n
  {
    hide Long, LetterAt, Symbol, Symbols;
    if n > 0 {
      LongNext(n);
      LongLetters(n - 1);
      SymbolListed(LetterAt(n - 1));
      AddOne(Long(n - 1), Symbol(LetterAt(n - 1)));
    } else {
      NoLongLetters();
    }
  }

  function Symbols(k: nat): set<char>
    requires k <= MAX_CHARS_PER_WORD
  {
    set i: nat | i < k :: Symbol(i)
  }

  lemma AddOne(m: multiset<char>, x: char)
    ensures |m + multiset{x}| == |m| + 1
    ensures forall ch :: ch in m + multiset{x} <==> ch in m || ch == x
  {
  }

  lemma SymbolListed(i: nat)
    requires i < MAX_CHARS_PER_WORD
    ensures Symbol(i) in Symbols(MAX_CHARS_PER_WORD)
  {
  }

  lemma {:induction false} SymbolsSize(k: nat)
    requires k <= MAX_CHARS_PER_WORD
    ensures |Symbols(k)| <= k
  {
    if k == 0 {
      assert Symbols(0) == {};
    } else {
      SymbolsSize(k - 1);
      assert Symbols(k) == Symbols(k - 1) + {Symbol(k - 1)};
    }
  }

  lemma LongFits(n: nat)
    requires n <= CAPACITY
    ensures MasterFits(Long(n))
  {
    LongLetters(n);
    SymbolsSize(MAX_CHARS_PER_WORD);
    SubsetSize(Distinct(Long(n)), Symbols(MAX_CHARS_PER_WORD));
    forall ch
      ensures Long(n)[ch] <= 63
    {
      if ch in Long(n) {
        var i: nat :| i < MAX_CHARS_PER_WORD && ch == Symbol(i);
        LongCounts(n, i);
      }
    }
  }

  lemma {:induction false} LongGrows(k: nat, n: nat)
    requires k < n <= CAPACITY
    ensures Long(k) < Long(n)
    decreases n
  {
    hide Long;
    LongStep(n);
    if k < n - 1 {
      LongGrows(k, n - 1);
      Grows(Long(k), Long(n - 1), Long(n));
    }
  }

  lemma LongStep(n: nat)
    requires 0 < n <= CAPACITY
    ensures Long(n - 1) < Long(n)
  {
    LongNext(n);
    hide Long;
    OneMore(Long(n - 1), Long(n - 1), Symbol(LetterAt(n - 1)));
  }

  lemma Grows(a: multiset<char>, b: multiset<char>, c: multiset<char>)
    requires a < b && b < c
    ensures a < c
  {
  }

  lemma OneMore(a: multiset<char>, b: multiset<char>, ch: char)
    requires a <= b
    ensures a < b + multiset{ch}
  {
    assert a[ch] < (b + multiset{ch})[ch];
  }

  // ----- The search on it --------------------------------------------------------------------------------

  /** The words of one letter: the symbols 0, 1 and 2. */
  ghost function OneLetterWords(): (words: seq<string>)
    ensures |words| == 3 && forall i: nat :: i < 3 ==> words[i] == [Symbol(i)]
  {
    [[Symbol(0)], [Symbol(1)], [Symbol(2)]]
  }

  /** The positions of the words that spell the first `k` letters. */
  function Spelled(k: nat): seq<nat>
    requires k <= 66
  {
    seq(k, j requires 0 <= j < k => LetterAt(j))
  }

  lemma OneLetter(i: nat)
    requires i < 65
    ensures IsWord([Symbol(i)]) && Letters([Symbol(i)]) == multiset{Symbol(i)}
  {
  }

  lemma OneLetterPartials(n: nat)
    requires 66 < n <= CAPACITY
    ensures Partials(OneLetterWords(), Long(n))
  {
    hide OneLetterWords, Long, Letters, IsWord;
    var words := OneLetterWords();
    LongLetters(n);
    forall i | 0 <= i < |words|
      ensures IsWord(words[i]) && Letters(words[i]) < Long(n)
    {
      OneLetter(i);
      LongCounts(n, i);
      assert multiset{Symbol(i)} <= Long(n) && |multiset{Symbol(i)}| < |Long(n)|;
    }
    forall i, j | 0 <= i < j < |words|
      ensures Less(words[i], words[j])
    {
      SymbolsDiffer(i, j);
    }
  }

  lemma {:induction false} SpelledPartial(n: nat, k: nat)
    requires 66 < n <= CAPACITY && 0 < k <= 66
    ensures Partials(OneLetterWords(), Long(n))
    ensures Partial(OneLetterWords(), Long(n), Spelled(k))
    ensures Total(OneLetterWords(), Spelled(k)) == Long(k)
    decreases k
  {
    hide Partials, Total, Letters, NonDecreasing, OneLetterWords, Long;
    var words, before := OneLetterWords(), Spelled(k - 1);
    OneLetterPartials(n);
    LongGrows(k, n);
    LongNext(k);
    OneLetter(LetterAt(k - 1));
    assert Spelled(k) == before + [LetterAt(k - 1)];
    if k == 1 {
      SingleIsPartial(words, Long(n), 0);
      NoLongLetters();
      assert Spelled(k) == [0];
    } else {
      SpelledPartial(n, k - 1);
      TotalAppend(words, Long(n), before, LetterAt(k - 1));
      AppendNonDecreasing(before, LetterAt(k - 1));
    }
  }

  /** Spelling letter after letter the search needs a buffer too many. */
  lemma {:induction false} LongMasterOutOfBounds(n: nat, dupes: bool, k: nat)
    requires 66 < n <= CAPACITY && 0 < k <= 65
    ensures Partials(OneLetterWords(), Long(n)) && Partial(OneLetterWords(), Long(n), Spelled(k))
    ensures !InBounds(OneLetterWords(), Long(n), dupes, Spelled(k), LetterAt(k))
    decreases 65 - k
  {
    hide Partials, Partial, Total, Phrase, Long;
    var words, i := OneLetterWords(), LetterAt(k);
    SpelledPartial(n, k);
    SpelledPartial(n, k + 1);
    LongGrows(k + 1, n);
    assert Spelled(k) + [i] == Spelled(k + 1);
    DuplicateTest(words, Long(n), Spelled(k), i);
    assert Descends(words, Long(n), dupes, Spelled(k), i);
    if k <= BUFFERS {
      LongMasterOutOfBounds(n, dupes, k + 1);
      assert LetterAt(k + 1) == i || LetterAt(k + 1) == i + 1;
    }
  }

  lemma LongMasterFails(n: nat, dupes: bool)
    requires 66 < n <= CAPACITY
    ensures Partials(OneLetterWords(), Long(n)) && Partial(OneLetterWords(), Long(n), [0])
    ensures !InBounds(OneLetterWords(), Long(n), dupes, [0], 0)
  {
    hide Partials, Partial, Long;
    LongMasterOutOfBounds(n, dupes, 1);
    assert Spelled(1) == [0];
  }

  /**
   With either setting of `dupes`, the buffers suffice for every list of words and every first word exactly
   up to 66 letters: of every greater number of letters that can be counted there is a master that fails.
   */
  lemma BuffersSufficeIff(n: nat, dupes: bool)
    ensures (forall words, master, f: nat ::
               Partials(words, master) && MasterFits(master) && |master| == n
               && f < |words| && Partial(words, master, [f]) ==>
                 InBounds(words, master, dupes, [f], f))
            <==> n <= 66 || n > 2520
  {
    hide Partials, Partial, MasterFits, InBounds, Long;
    if 66 < n <= CAPACITY {
      LongMasterFails(n, dupes);
      LongFits(n);
      LongLetters(n);
    } else {
      forall words, master, f: nat | Partials(words, master) && MasterFits(master) && |master| == n
                                     && f < |words| && Partial(words, master, [f])
        ensures InBounds(words, master, dupes, [f], f)
      {
        FittingMasterSize(master);
        ShortMasterInBounds(words, master, dupes, [f], f);
      }
    }
  }
}
