/**
 Loading the dictionary, one word a line: the second half of the file first, each word of it guarded by a
 lookup, then the first half.
 */
module Loads {
  import opened TernaryTrees
  import opened Text
  import opened Tries

  /** What a dictionary line must be for the tree to take it. */
  predicate IsLine(line: string) {
    IsBytes(line) && 0 < |line| < 0x8_0000
  }

  /** The tree after inserting the lines of a list one after the other. */
  ghost function InsertAll(t: Tree, list: seq<string>): Tree {
    if list == [] then t
    else
      var n := |list| - 1;
      var before := InsertAll(t, list[..n]);
      if list[n] == "" then before else Tries.Insert(before, list[n])
  }

  lemma NothingInserted(t: Tree)
    ensures InsertAll(t, []) == t
  {
  }

  lemma {:induction false} InsertAllConcat(t: Tree, a: seq<string>, b: seq<string>)
    ensures InsertAll(t, a + b) == InsertAll(InsertAll(t, a), b)
    decreases |b|
  {
    if b == [] {
      assert a + b == a;
    } else {
      var n := |b| - 1;
      assert (a + b)[..|a| + n] == a + b[..n];
      InsertAllConcat(t, a, b[..n]);
    }
  }

  lemma {:induction false} InsertAllOrdered(t: Tree, list: seq<string>)
    requires Ordered(t) && forall line :: line in list ==> IsBytes(line)
    ensures Ordered(InsertAll(t, list))
    decreases |list|
  {
    if list != [] {
      var n := |list| - 1;
      InsertAllOrdered(t, list[..n]);
      if list[n] != "" {
        InsertOrdered(InsertAll(t, list[..n]), list[n]);
      }
    }
  }

  /** `w` is one of the non-empty lines in lower case. */
  ghost predicate IsLoweredLine(list: seq<string>, w: string) {
    exists line :: line in list && line != "" && FoldsTo(line, w)
  }

  /** Whatever the order, inserting lines adds exactly the lower-cased lines. */
  lemma {:induction false} InsertAllWords(t: Tree, list: seq<string>, w: string)
    ensures Has(InsertAll(t, list), w) <==> Has(t, w) || IsLoweredLine(list, w)
    decreases |list|
  {
    hide Has, Insert, FoldsTo;
    if list != [] {
      var n := |list| - 1;
      InsertAllWords(t, list[..n], w);
      if list[n] != "" {
        InsertAddsWord(InsertAll(t, list[..n]), list[n], w);
      }
      assert forall line :: line in list <==> line in list[..n] || line == list[n] by {
        assert list == list[..n] + [list[n]];
      }
    }
  }

  /** Lists with the same lines, in any order and number, load the same words. */
  lemma LoadOrderIndependent(t: Tree, a: seq<string>, b: seq<string>, w: string)
    requires forall line :: line in a <==> line in b
    ensures Has(InsertAll(t, a), w) <==> Has(InsertAll(t, b), w)
  {
    hide Has, InsertAll, FoldsTo;
    InsertAllWords(t, a, w);
    InsertAllWords(t, b, w);
  }

  /** Lower-cases a line character by character. */
  method LowerLine(line: string) returns (lowered: string)
    ensures lowered == Lower(line) && FoldsTo(line, lowered)
  {
    LowerFolds(line, Lower(line));
    lowered := "";
    for k := 0 to |line|
      invariant lowered == Lower(line)[..k]
    {
      lowered := lowered + [LowerChar(line[k])];
    }
  }

  /** Inserts one line, behind a lookup of the lower-cased line when `guarded`. */
  method ReadLine(line: string, trie: TernaryTree, guarded: bool)
    requires trie.Valid() && IsLine(line)
    modifies trie`root, ReprOf(trie.root)
    ensures trie.Valid() && fresh(ReprOf(trie.root) - old(ReprOf(trie.root)))
    ensures TreeOf(trie.root) == Tries.Insert(old(TreeOf(trie.root)), line)
  {
    var known := false;
    if guarded {
      var lowered := LowerLine(line);
      known := trie.Find(lowered);
      if known {
        InsertPresent(TreeOf(trie.root), line);
      }
    }
    if !known {
      trie.Insert(line);
    }
  }

  lemma InsertAllNext(t: Tree, lines: seq<string>, k: nat)
    requires k < |lines| && lines[k] != ""
    ensures InsertAll(t, lines[..k + 1]) == Tries.Insert(InsertAll(t, lines[..k]), lines[k])
  {
    assert lines[..k + 1][..k] == lines[..k];
  }

  /** One phase of the load. The guard makes no difference to the tree. */
  method ReadLines(lines: seq<string>, trie: TernaryTree, guarded: bool)
    requires trie.Valid() && forall k :: 0 <= k < |lines| ==> IsLine(lines[k])
    modifies trie`root, ReprOf(trie.root)
    ensures trie.Valid() && fresh(ReprOf(trie.root) - old(ReprOf(trie.root)))
    ensures TreeOf(trie.root) == InsertAll(old(TreeOf(trie.root)), lines)
  {
    hide InsertAll, Insert, TernaryTree.Valid;
    ghost var before := TreeOf(trie.root);
    NothingInserted(before);
    assert lines[..0] == [];
    var k := 0;
    while k < |lines|
      invariant 0 <= k <= |lines|
      invariant trie.Valid() && fresh(ReprOf(trie.root) - old(ReprOf(trie.root)))
      invariant TreeOf(trie.root) == InsertAll(before, lines[..k])
    {
      InsertAllNext(before, lines, k);
      ReadLine(lines[k], trie, guarded);
      k := k + 1;
    }
    assert lines[..|lines|] == lines;
  }

  /** Reads the lines of a dictionary with `lineTot` line ends into the tree. */
  method ReadDictionaryFile(lines: seq<string>, lineTot: nat, trie: TernaryTree)
    requires trie.Valid() && forall k :: 0 <= k < |lines| ==> IsLine(lines[k])
    requires lineTot == |lines| || lineTot + 1 == |lines|
    modifies trie`root, ReprOf(trie.root)
    ensures trie.Valid() && fresh(ReprOf(trie.root) - old(ReprOf(trie.root)))
    ensures TreeOf(trie.root) == InsertAll(old(TreeOf(trie.root)), lines[lineTot / 2..] + lines[..lineTot / 2])
    ensures forall w :: Has(TreeOf(trie.root), w) <==> Has(old(TreeOf(trie.root)), w) || IsLoweredLine(lines, w)
  {
    hide Has, Insert, FoldsTo, InsertAll, TernaryTree.Valid;
    ghost var before := TreeOf(trie.root);
    var start := lineTot / 2;
    ReadLines(lines[start..], trie, true);
    ReadLines(lines[..start], trie, false);
    InsertAllConcat(before, lines[start..], lines[..start]);
    assert lines == lines[..start] + lines[start..];
    forall w {
      InsertAllWords(before, lines[start..] + lines[..start], w);
    }
  }
}
