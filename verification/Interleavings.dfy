/** Threads that each insert a list of phrases under a lock: what any interleaving of them inserts. */
module Interleavings {

  /** `m` takes the items of the lists one at a time, each list in its own order, until all are used up. */
  ghost predicate Merges(m: seq<string>, traces: seq<seq<string>>)
    decreases |m|, 1
  {
    if m == [] then forall k :: 0 <= k < |traces| ==> traces[k] == []
    else exists k :: 0 <= k < |traces| && TakesFrom(m, traces, k)
  }

  /** The first item of `m` is the first item of list `k`, and the rest merges what is left. */
  ghost predicate TakesFrom(m: seq<string>, traces: seq<seq<string>>, k: nat)
    requires m != [] && k < |traces|
    decreases |m|, 0
  {
    traces[k] != [] && traces[k][0] == m[0] && Merges(m[1..], traces[k := traces[k][1..]])
  }

  /** All items of all lists with their multiplicities. */
  ghost function Together(traces: seq<seq<string>>): multiset<string> {
    if traces == [] then multiset{}
    else
      var n := |traces| - 1;
      Together(traces[..n]) + multiset(traces[n])
  }

  /** Every interleaving inserts the same phrases. */
  lemma {:induction false} MergeKeepsItems(m: seq<string>, traces: seq<seq<string>>)
    requires Merges(m, traces)
    ensures multiset(m) == Together(traces)
    decreases |m|
  {
    if m == [] {
      TogetherNothing(traces);
    } else {
      var k :| 0 <= k < |traces| && TakesFrom(m, traces, k);
      var rest := traces[k := traces[k][1..]];
      MergeKeepsItems(m[1..], rest);
      assert m == [m[0]] + m[1..] && traces[k] == [m[0]] + traces[k][1..];
      TogetherUpdate(traces, k, traces[k][1..], m[0]);
    }
  }

  lemma {:induction false} TogetherNothing(traces: seq<seq<string>>)
    requires forall k :: 0 <= k < |traces| ==> traces[k] == []
    ensures Together(traces) == multiset{}
  {
    if traces != [] {
      TogetherNothing(traces[..|traces| - 1]);
    }
  }

  lemma {:induction false} TogetherUpdate(traces: seq<seq<string>>, k: nat, rest: seq<string>, x: string)
    requires k < |traces| && traces[k] == [x] + rest
    ensures Together(traces) == Together(traces[k := rest]) + multiset{x}
    decreases |traces|
  {
    var n := |traces| - 1;
    if k < n {
      TogetherUpdate(traces[..n], k, rest, x);
      assert traces[k := rest][..n] == traces[..n][k := rest];
    } else {
      assert traces[k := rest][..n] == traces[..n];
    }
  }

  /** A list that is used up after all others leaves an interleaving. */
  lemma {:induction false} AppendTrace(m: seq<string>, traces: seq<seq<string>>, last: seq<string>)
    requires Merges(m, traces)
    ensures Merges(m + last, traces + [last])
    decreases |m| + |last|
  {
    var all := traces + [last];
    if m != [] {
      var k :| 0 <= k < |traces| && TakesFrom(m, traces, k);
      AppendTrace(m[1..], traces[k := traces[k][1..]], last);
      assert all[k := traces[k][1..]] == traces[k := traces[k][1..]] + [last];
      assert (m + last)[1..] == m[1..] + last;
      assert TakesFrom(m + last, all, k);
    } else if last != [] {
      AppendTrace(m, traces, last[1..]);
      assert all[|traces| := last[1..]] == traces + [last[1..]];
      assert m + last == last && m + last[1..] == last[1..];
      assert TakesFrom(m + last, all, |traces|);
    }
  }

  /** The items of `m` that belong to list `k`, in order. */
  ghost function ItemsOf(m: seq<string>, owners: seq<nat>, k: nat): seq<string>
    requires |owners| == |m|
  {
    if m == [] then []
    else (if owners[0] == k then [m[0]] else []) + ItemsOf(m[1..], owners[1..], k)
  }

  /** Each item belongs to one of the lists, and the items of a list are the list. */
  ghost predicate Owned(m: seq<string>, owners: seq<nat>, traces: seq<seq<string>>) {
    && |owners| == |m| && (forall i :: 0 <= i < |owners| ==> owners[i] < |traces|)
    && forall k :: 0 <= k < |traces| ==> ItemsOf(m, owners, k) == traces[k]
  }

  /** The interleavings are all the lists whose items can be dealt out to the given lists in order. */
  lemma MergesIffOwned(m: seq<string>, traces: seq<seq<string>>)
    ensures Merges(m, traces) <==> exists owners :: Owned(m, owners, traces)
  {
    hide Merges, Owned;
    if Merges(m, traces) {
      var owners := MergeOwners(m, traces);
    }
    if owners :| Owned(m, owners, traces) {
      OwnedMerges(m, owners, traces);
    }
  }

  lemma {:induction false} MergeOwners(m: seq<string>, traces: seq<seq<string>>) returns (owners: seq<nat>)
    requires Merges(m, traces)
    ensures Owned(m, owners, traces)
    decreases |m|
  {
    if m == [] {
      owners := [];
    } else {
      var k: nat :| k < |traces| && TakesFrom(m, traces, k);
      var later := MergeOwners(m[1..], traces[k := traces[k][1..]]);
      owners := [k] + later;
      assert owners[1..] == later;
      assert traces[k] == [m[0]] + traces[k][1..];
    }
  }

  lemma {:induction false} OwnedMerges(m: seq<string>, owners: seq<nat>, traces: seq<seq<string>>)
    requires Owned(m, owners, traces)
    ensures Merges(m, traces)
    decreases |m|
  {
    if m != [] {
      var k := owners[0];
      assert traces[k] == [m[0]] + ItemsOf(m[1..], owners[1..], k);
      var rest := traces[k := traces[k][1..]];
      assert Owned(m[1..], owners[1..], rest);
      OwnedMerges(m[1..], owners[1..], rest);
      assert TakesFrom(m, traces, k);
    }
  }
}
