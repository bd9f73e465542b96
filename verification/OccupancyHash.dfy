/**
 The sparse multiset of letters: a dense table of counts, the list of the characters that occur, and the
 inverse of that list. `Contents` is the multiset a hash stands for; `Valid` is the representation
 invariant every operation keeps.
 */
module OccupancyHashes {
  import opened Lists
  import opened Text

  /** The `char` in which counts and indexes are stored. */
  newtype int8 = x: int | -128 <= x < 128

  const MAX_CHARS_PER_WORD := 40
  const DOMAIN_SIZE := 256

  /** What a hash can hold without overflowing a count or the list of characters. */
  ghost predicate Fits(m: multiset<char>) {
    && |Distinct(m)| <= 40
    && forall ch :: m[ch] <= 127
  }

  class OccupancyHash {
    const occupancyIndex: array<int8>  // the characters that occur, in order of first occurrence
    const indexIndex: array<int8>      // maps a character to its place in occupancyIndex
    const charCount: array<int8>       // maps a character to its count
    var indexPtr: nat                  // number of distinct characters
    ghost var Contents: multiset<char>

    ghost function Repr(): set<object> {
      {this, occupancyIndex, indexIndex, charCount}
    }

    ghost predicate Valid()
      reads Repr()
    {
      && occupancyIndex.Length == MAX_CHARS_PER_WORD
      && indexIndex.Length == charCount.Length == DOMAIN_SIZE
      && occupancyIndex != indexIndex && indexIndex != charCount && occupancyIndex != charCount
      && indexPtr <= MAX_CHARS_PER_WORD
      // the list holds characters that occur, and its inverse finds each of them again
      && (forall k {:trigger occupancyIndex[k]} :: 0 <= k < indexPtr ==>
            && 0 < occupancyIndex[k]
            && charCount[occupancyIndex[k]] > 0
            && indexIndex[occupancyIndex[k]] as int == k)
      // the counts are those of the multiset represented, and each letter of it is in the list
      && (forall ch {:trigger Contents[ch]} ::
            && Contents[ch] == CountOf(ch)
            && (Contents[ch] != 0 ==> InList(ch)))
      // everything else is blank
      && (forall k {:trigger occupancyIndex[k]} :: indexPtr <= k < MAX_CHARS_PER_WORD ==> occupancyIndex[k] == 0)
      && (forall c {:trigger indexIndex[c]} :: 0 <= c < DOMAIN_SIZE && charCount[c] == 0 ==> indexIndex[c] == 0)
    }

    ghost function CountOf(ch: char): int
      reads this, charCount
    {
      if ch as int < charCount.Length then charCount[ch as int] as int else 0
    }

    ghost predicate InList(ch: char)
      requires occupancyIndex.Length == MAX_CHARS_PER_WORD && indexIndex.Length == DOMAIN_SIZE
      requires indexPtr <= MAX_CHARS_PER_WORD
      reads this, occupancyIndex, indexIndex
    {
      && ch as int < DOMAIN_SIZE
      && 0 <= indexIndex[ch as int] as int < indexPtr
      && occupancyIndex[indexIndex[ch as int]] as int == ch as int
    }

    /** The listed characters, in order. */
    ghost function Keys(): (keys: seq<char>)
      requires Valid()
      reads Repr()
      ensures |keys| == indexPtr
      ensures forall k :: 0 <= k < indexPtr ==> keys[k] as int == occupancyIndex[k] as int
    {
      seq(indexPtr, k requires 0 <= k < indexPtr && Valid() reads Repr() => occupancyIndex[k] as int as char)
    }

    /** The listed characters are the distinct letters of the multiset, each listed once. */
    lemma KeysAreDistinctLetters()
      requires Valid()
      ensures Distinct(Contents) == set ch | ch in Keys()
      ensures indexPtr == |Distinct(Contents)|
    {
      forall ch
        ensures ch in Keys() <==> ch in Distinct(Contents)
      {
        if ch in Keys() {
          var k :| 0 <= k < |Keys()| && Keys()[k] == ch;
          assert Contents[ch] == CountOf(ch);
        }
        if ch in Contents {
          assert Keys()[indexIndex[ch as int]] == ch;
        }
      }
      NoRepeatsSize(Keys());
    }

    /** Pigeonhole: a hash with more distinct letters than `b` has a letter `b` has not. */
    lemma MoreDistinctNotBelow(b: OccupancyHash)
      requires Valid() && b.Valid()
      ensures Contents <= b.Contents ==> indexPtr <= b.indexPtr
    {
      KeysAreDistinctLetters();
      b.KeysAreDistinctLetters();
      if Contents <= b.Contents {
        DistinctMonotone(Contents, b.Contents);
      }
    }

    /** The listed characters are the distinct letters, and the tables hold their counts. */
    lemma KeysCount(b: OccupancyHash)
      requires Valid() && b.Valid()
      ensures Distinct(Contents) == set ch | ch in Keys()
      ensures forall k :: 0 <= k < indexPtr ==>
                            && Contents[Keys()[k]] == charCount[occupancyIndex[k]] as int
                            && b.Contents[Keys()[k]] == b.charCount[occupancyIndex[k]] as int
    {
    }

    /** The blank hash. */
    constructor ()
      ensures Valid() && fresh(Repr()) && Contents == multiset{}
    {
      occupancyIndex := new int8[MAX_CHARS_PER_WORD](_ => 0);
      indexIndex := new int8[DOMAIN_SIZE](_ => 0);
      charCount := new int8[DOMAIN_SIZE](_ => 0);
      indexPtr := 0;
      Contents := multiset{};
    }

    /** Blanks exactly the entries in use, and so the whole hash. */
    method Clear()
      requires Valid()
      modifies Repr()
      ensures Valid() && Contents == multiset{} && indexPtr == 0
      ensures forall k :: 0 <= k < MAX_CHARS_PER_WORD ==> occupancyIndex[k] == 0
      ensures forall c :: 0 <= c < DOMAIN_SIZE ==> charCount[c] == indexIndex[c] == 0
    {
      while indexPtr != 0
        invariant Valid()
        decreases indexPtr
      {
        BlankLast();
      }
      EmptyIsBlank();
    }

    /** Blanks the last entry in use. */
    method BlankLast()
      requires Valid() && indexPtr != 0
      modifies Repr()
      ensures Valid() && indexPtr == old(indexPtr) - 1
      ensures Contents == old(Contents[occupancyIndex[indexPtr - 1] as int as char := 0])
    {
      indexPtr := indexPtr - 1;
      Contents := Contents[occupancyIndex[indexPtr] as int as char := 0];
      charCount[occupancyIndex[indexPtr]] := 0;
      indexIndex[occupancyIndex[indexPtr]] := 0;
      occupancyIndex[indexPtr] := 0;
    }

    /** A hash that lists no characters is blank all over. */
    lemma EmptyIsBlank()
      requires Valid() && indexPtr == 0
      ensures Contents == multiset{}
      ensures forall k :: 0 <= k < MAX_CHARS_PER_WORD ==> occupancyIndex[k] == 0
      ensures forall c :: 0 <= c < DOMAIN_SIZE ==> charCount[c] == indexIndex[c] == 0
    {
      assert Contents == multiset{} by {
        assert forall ch :: Contents[ch] == 0;
      }
      forall c | 0 <= c < DOMAIN_SIZE
        ensures charCount[c] == indexIndex[c] == 0
      {
        assert Contents[c as char] == CountOf(c as char) == 0;
      }
    }

    /** A character outside the list still has room in the list when the sum fits. */
    lemma RoomForOneMore(ch: char, total: multiset<char>)
      requires Valid() && Fits(total) && Contents <= total && ch !in Contents && ch in total
      ensures indexPtr < MAX_CHARS_PER_WORD
    {
      KeysAreDistinctLetters();
      DistinctMonotone(Contents[ch := 1], total);
      assert Distinct(Contents[ch := 1]) == Distinct(Contents) + {ch};
    }

    /**
     Adds `n` to the count of character `c`, listing the character when it has no count yet. The result
     must stay within a multiset that fits.
     */
    method AddCount(c: int8, n: int8, ghost total: multiset<char>)
      requires Valid() && 0 < c && 0 < n
      requires Fits(total) && Contents <= total
      requires Contents[c as int as char] + n as int <= total[c as int as char]
      modifies Repr()
      ensures Valid()
      ensures Contents == old(Contents)[c as int as char := old(Contents)[c as int as char] + n as int]
    {
      ghost var ch := c as int as char;
      assert Contents[ch] == CountOf(ch);
      if charCount[c] == 0 {
        RoomForOneMore(ch, total);
        indexIndex[c] := indexPtr as int8;
        charCount[c] := n;
        occupancyIndex[indexPtr] := c;
        indexPtr := indexPtr + 1;
      } else {
        charCount[c] := charCount[c] + n;
      }
      Contents := Contents[ch := Contents[ch] + n as int];
    }

    /** `operator+=`: multiset sum. */
    method Add(b: OccupancyHash)
      requires Valid() && b.Valid() && Repr() !! b.Repr()
      requires Fits(Contents + b.Contents)
      modifies Repr()
      ensures Valid() && Contents == old(Contents) + b.Contents
    {
      hide Valid, Fits, ListsExactly;
      ghost var added := multiset{};
      ghost var rest := b.Contents;
      var bIndex := b.indexPtr;
      b.ListsAll();
      while bIndex != 0
        invariant 0 <= bIndex <= b.indexPtr
        invariant Valid() && b.Valid()
        invariant Contents == old(Contents) + added && added + rest == b.Contents
        invariant b.ListsExactly(rest, bIndex)
      {
        bIndex := bIndex - 1;
        b.ListedNext(rest, bIndex);
        var charIndex := b.occupancyIndex[bIndex];
        ghost var ch := b.Keys()[bIndex];
        MoveNext(old(Contents), added, rest, ch);
        AddCount(charIndex, b.charCount[charIndex], old(Contents) + (added + rest));
        added, rest := added + multiset{}[ch := rest[ch]], rest[ch := 0];
      }
      b.ListsNone(rest);
    }

    /** `rest` holds the counts of the first `k` listed characters and nothing else. */
    ghost predicate ListsExactly(rest: multiset<char>, k: nat)
      requires Valid() && k <= indexPtr
      reads Repr()
    {
      forall ch :: rest[ch] == if ListedBefore(ch, k) then Contents[ch] else 0
    }

    ghost predicate ListedBefore(ch: char, k: nat)
      requires Valid()
      reads Repr()
    {
      ch as int < DOMAIN_SIZE && charCount[ch as int] != 0 && (indexIndex[ch as int] as int) < k
    }

    lemma ListsAll()
      requires Valid()
      ensures ListsExactly(Contents, indexPtr)
    {
    }

    lemma ListsNone(rest: multiset<char>)
      requires Valid() && ListsExactly(rest, 0)
      ensures rest == multiset{}
    {
    }

    lemma ListedNext(rest: multiset<char>, k: nat)
      requires Valid() && k < indexPtr && ListsExactly(rest, k + 1)
      ensures occupancyIndex.Length == MAX_CHARS_PER_WORD && charCount.Length == DOMAIN_SIZE
      ensures k < MAX_CHARS_PER_WORD && 0 < occupancyIndex[k]
      ensures Keys()[k] == occupancyIndex[k] as int as char
      ensures rest[Keys()[k]] == Contents[Keys()[k]] == charCount[occupancyIndex[k]] as int > 0
      ensures ListsExactly(rest[Keys()[k] := 0], k)
    {
    }

    /** Counts the letters of `word` on top of what the hash already holds, skipping spaces. */
    method GetCharCountMap(word: string)
      requires Valid() && IsText(word)
      requires Fits(Contents + Letters(word))
      modifies Repr()
      ensures Valid() && Contents == old(Contents) + Letters(word)
    {
      hide Valid, Letters;
      assert Letters(word[..0]) == multiset{} by {
        NoLetters();
        assert word[..0] == "";
      }
      ghost var total := Contents + Letters(word);
      var i := 0;
      while i < |word|
        invariant 0 <= i <= |word|
        invariant Valid()
        invariant Contents == old(Contents) + Letters(word[..i])
      {
        var charIndex := word[i] as int as int8;
        CountNext(word, i, old(Contents));
        if charIndex != 0x20 {
          AddCount(charIndex, 1, total);
        }
        i := i + 1;
      }
      assert word[..|word|] == word;
    }

    /**
     Multiset order: 0 when the hashes hold the same letters, negative when this one is a proper
     sub-multiset of `b`, positive when it is not a sub-multiset.
     */
    method Compare(b: OccupancyHash) returns (result: int)
      requires Valid() && b.Valid()
      ensures result == 0 <==> Contents == b.Contents
      ensures result == -1 <==> Contents < b.Contents
      ensures result == 1 <==> !(Contents <= b.Contents)
      ensures -1 <= result <= 1
    {
      ghost var keys, bKeys, A, B := Keys(), b.Keys(), Contents, b.Contents;
      KeysCount(b);
      b.KeysCount(this);
      MoreDistinctNotBelow(b);
      b.MoreDistinctNotBelow(this);
      result := 0;
      if b.indexPtr > indexPtr {
        result := -1;
      }
      if b.indexPtr < indexPtr {
        return 1;
      }
      var k := indexPtr;
      while k != 0
        invariant 0 <= k <= indexPtr
        invariant -1 <= result <= 0
        invariant BelowFrom(keys, k, A, B)
        invariant result == -1 ==> A != B
      {
        k := k - 1;
        if charCount[occupancyIndex[k]] > b.charCount[occupancyIndex[k]] {
          assert A[keys[k]] > B[keys[k]];
          return 1;
        }
        if charCount[occupancyIndex[k]] < b.charCount[occupancyIndex[k]] {
          assert A[keys[k]] < B[keys[k]];
          result := -1;
        }
      }
      BelowAll(keys, A, B);
      if result == 0 {
        k := b.indexPtr;
        while k != 0
          invariant 0 <= k <= b.indexPtr
          invariant BelowFrom(bKeys, k, B, A)
        {
          k := k - 1;
          if charCount[b.occupancyIndex[k]] < b.charCount[b.occupancyIndex[k]] {
            assert A[bKeys[k]] < B[bKeys[k]];
            return -1;
          }
        }
        BelowAll(bKeys, B, A);
      }
    }

    /** Whether this hash is a sub-multiset of `b`. */
    method IsSubset(b: OccupancyHash) returns (result: bool)
      requires Valid() && b.Valid()
      ensures result <==> Contents <= b.Contents
    {
      ghost var keys, A, B := Keys(), Contents, b.Contents;
      KeysCount(b);
      result := true;
      var k := indexPtr;
      while k != 0
        invariant 0 <= k <= indexPtr
        invariant result
        invariant BelowFrom(keys, k, A, B)
      {
        k := k - 1;
        if b.charCount[occupancyIndex[k]] < charCount[occupancyIndex[k]] {
          assert A[keys[k]] > B[keys[k]];
          return false;
        }
      }
      BelowAll(keys, A, B);
    }
  }

  /** What counting the `i`-th character of `word` on top of `base` adds. */
  lemma CountNext(word: string, i: nat, base: multiset<char>)
    requires i < |word|
    ensures base + Letters(word[..i]) <= base + Letters(word)
    ensures word[i] == ' ' ==> Letters(word[..i + 1]) == Letters(word[..i])
    ensures word[i] != ' ' ==>
              var now := base + Letters(word[..i]);
              && now[word[i]] + 1 <= (base + Letters(word))[word[i]]
              && now[word[i] := now[word[i]] + 1] == base + Letters(word[..i + 1])
  {
    LettersOfPrefix(word, i);
    LettersOfPart(word, i);
    LettersOfPart(word, i + 1);
  }

  /** What moving the letter `ch` of `rest` on top of `base + added` changes. */
  lemma MoveNext(base: multiset<char>, added: multiset<char>, rest: multiset<char>, ch: char)
    ensures var now := base + added;
            && now <= base + (added + rest)
            && now[ch] + rest[ch] <= (base + (added + rest))[ch]
            && now[ch := now[ch] + rest[ch]] == base + (added + multiset{}[ch := rest[ch]])
            && (added + multiset{}[ch := rest[ch]]) + rest[ch := 0] == added + rest
  {
  }

  /** Of the characters listed from `k` on, `a` has no more than `b`. */
  ghost predicate BelowFrom(keys: seq<char>, k: nat, a: multiset<char>, b: multiset<char>) {
    forall m :: k <= m < |keys| ==> a[keys[m]] <= b[keys[m]]
  }

  /** Comparing the counts of the listed characters decides multiset inclusion. */
  lemma BelowAll(keys: seq<char>, a: multiset<char>, b: multiset<char>)
    requires Distinct(a) == set ch | ch in keys
    requires BelowFrom(keys, 0, a, b)
    ensures a <= b
  {
    forall ch
      ensures a[ch] <= b[ch]
    {
      if ch in a {
        assert ch in Distinct(a);
        var m :| 0 <= m < |keys| && keys[m] == ch;
      }
    }
  }
}
