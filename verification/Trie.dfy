/**
 The ternary search tree as a value: what a heap of nodes stands for. Each level is a binary search tree
 on one character; the center of a node holds the words that go on after its character.
 */
module Tries {
  import opened Text
  import opened EditDistances
  import opened Lists

  datatype Tree = Leaf | Node(left: Tree, key: char, terminator: bool, center: Tree, right: Tree)

  /** The node at which the path of a non-empty `w` ends, or `Leaf` when `w` leaves the tree. */
  function At(t: Tree, w: string): Tree
    decreases |w|, t
  {
    if t == Leaf || w == "" then Leaf
    else if w[0] < t.key then At(t.left, w)
    else if w[0] > t.key then At(t.right, w)
    else if |w| == 1 then t
    else At(t.center, w[1..])
  }

  /** The word `w` is stored. */
  predicate Has(t: Tree, w: string) {
    At(t, w).Node? && At(t, w).terminator
  }

  /**
   Where a lookup of `w` arrives. It compares signed characters with unsigned keys, so a byte above 127 is
   less than every key and leads out of the tree.
   */
  function Sought(t: Tree, w: string): Tree {
    if IsText(w) then At(t, w) else Leaf
  }

  /** Stores the lower-cased `w`. */
  function Insert(t: Tree, w: string): Tree
    requires w != ""
    decreases |w|, t
  {
    var k := LowerChar(w[0]);
    match t
    case Leaf =>
      if |w| == 1 then Node(Leaf, k, true, Leaf, Leaf)
      else Node(Leaf, k, false, Insert(Leaf, w[1..]), Leaf)
    case Node(l, key, terminator, c, r) =>
      if k < key then Node(Insert(l, w), key, terminator, c, r)
      else if k > key then Node(l, key, terminator, c, Insert(r, w))
      else if |w| == 1 then Node(l, key, true, c, r)
      else Node(l, key, terminator, Insert(c, w[1..]), r)
  }

  /** Inserting adds exactly the word with its capitals replaced by small letters. */
  lemma InsertAddsWord(t: Tree, w: string, u: string)
    requires w != ""
    ensures Has(Insert(t, w), u) <==> FoldsTo(w, u) || Has(t, u)
  {
    InsertAddsLower(t, w, u);
    LowerFolds(w, u);
  }

  lemma {:induction false} InsertAddsLower(t: Tree, w: string, u: string)
    requires w != ""
    ensures Has(Insert(t, w), u) <==> u == Lower(w) || Has(t, u)
    decreases |w|, t
  {
    assert Lower(w) == [LowerChar(w[0])] + Lower(w[1..]);
    if u != "" {
      assert u == [u[0]] + u[1..];
      match t
      case Leaf =>
        if |w| > 1 {
          InsertAddsLower(Leaf, w[1..], u[1..]);
        } else {
          assert u == Lower(w) <==> u[0] == LowerChar(w[0]) && |u| == 1;
          assert At(Leaf, u) == At(Leaf, u[1..]) == Leaf;
        }
      case Node(l, key, _, c, r) =>
        InsertAddsLower(l, w, u);
        InsertAddsLower(r, w, u);
        if |w| > 1 {
          InsertAddsLower(c, w[1..], u[1..]);
        }
    }
  }

  /** Inserting a word that is stored changes nothing at all, so guarding an insertion is redundant. */
  lemma {:induction false} InsertPresent(t: Tree, w: string)
    requires w != "" && Has(t, Lower(w))
    ensures Insert(t, w) == t
    decreases |w|, t
  {
    assert |w| > 1 ==> Lower(w)[1..] == Lower(w[1..]);
    match t
    case Node(l, key, _, c, r) =>
      if LowerChar(w[0]) < key {
        InsertPresent(l, w);
      } else if LowerChar(w[0]) > key {
        InsertPresent(r, w);
      } else if |w| > 1 {
        InsertPresent(c, w[1..]);
      }
  }

  // ----- Byte 255 ----------------------------------------------------------------------------------------

  /** What an insertion has come to within a number of calls. */
  datatype Outcome = Running | Ended(tree: Tree)

  /** Insertion as the program runs it, on any bytes, stopped after `calls` nested calls. */
  function InsertWithin(t: Tree, w: string, calls: nat): Outcome
    requires w != ""
    decreases calls
  {
    if calls == 0 then Running
    else
      var n := if t == Leaf then Node(Leaf, LowerChar(w[0]), false, Leaf, Leaf) else t;
      if Compared(w[0]) < n.key as int then
        match InsertWithin(n.left, w, calls - 1)
        case Running => Running
        case Ended(l) => Ended(n.(left := l))
      else if Compared(w[0]) > n.key as int then
        match InsertWithin(n.right, w, calls - 1)
        case Running => Running
        case Ended(r) => Ended(n.(right := r))
      else if |w| > 1 then
        match InsertWithin(n.center, w[1..], calls - 1)
        case Running => Running
        case Ended(c) => Ended(n.(center := c))
      else Ended(n.(terminator := true))
  }

  /** Whatever the tree, an insertion ends if and only if byte 255 does not occur in the word. */
  lemma InsertEndsIff(t: Tree, w: string)
    requires w != "" && forall k :: 0 <= k < |w| ==> 0 < w[k] as int < 256
    ensures (exists calls :: InsertWithin(t, w, calls) != Running) <==> IsBytes(w)
    ensures IsBytes(w) ==> exists calls :: InsertWithin(t, w, calls) == Ended(Insert(t, w))
  {
    if IsBytes(w) {
      var calls := InsertEnds(t, w);
    } else {
      var k :| 0 <= k < |w| && w[k] as int == 255;
      forall calls {
        InsertRunsOn(t, w, k, calls);
      }
    }
  }

  lemma {:induction false} InsertEnds(t: Tree, w: string) returns (calls: nat)
    requires w != "" && IsBytes(w)
    ensures calls > 0 && InsertWithin(t, w, calls) == Ended(Insert(t, w))
    decreases |w|, t
  {
    calls := 0;
    if t.Node? && LowerChar(w[0]) < t.key {
      calls := InsertEnds(t.left, w);
    } else if t.Node? && LowerChar(w[0]) > t.key {
      calls := InsertEnds(t.right, w);
    } else if |w| > 1 {
      calls := InsertEnds(if t.Node? then t.center else Leaf, w[1..]);
    }
    calls := calls + 1;
  }

  /** Byte 255 is less than its own key: the insertion goes left, makes another node for it, and goes left again. */
  lemma {:induction false} InsertRunsOn(t: Tree, w: string, k: nat, calls: nat)
    requires k < |w| && w[k] as int == 255
    ensures InsertWithin(t, w, calls) == Running
    decreases calls
  {
    if calls > 0 {
      var n := if t == Leaf then Node(Leaf, LowerChar(w[0]), false, Leaf, Leaf) else t;
      if Compared(w[0]) < n.key as int {
        InsertRunsOn(n.left, w, k, calls - 1);
      } else if Compared(w[0]) > n.key as int {
        InsertRunsOn(n.right, w, k, calls - 1);
      } else {
        InsertRunsOn(n.center, w[1..], k - 1, calls - 1);
      }
    }
  }

  // ----- The search order --------------------------------------------------------------------------------

  /** The characters of the binary search tree at the top level of `t`. */
  ghost function LevelKeys(t: Tree): set<char> {
    match t
    case Leaf => {}
    case Node(l, key, _, _, r) => LevelKeys(l) + {key} + LevelKeys(r)
  }

  /** At every level the characters on the left are smaller and those on the right greater. */
  ghost predicate Ordered(t: Tree) {
    match t
    case Leaf => true
    case Node(l, key, _, c, r) =>
      && 0 < key as int < 256
      && (forall k :: k in LevelKeys(l) ==> k < key)
      && (forall k :: k in LevelKeys(r) ==> key < k)
      && Ordered(l) && Ordered(c) && Ordered(r)
  }

  lemma {:induction false} InsertOrdered(t: Tree, w: string)
    requires w != "" && IsBytes(w) && Ordered(t)
    ensures Ordered(Insert(t, w))
    ensures LevelKeys(Insert(t, w)) == LevelKeys(t) + {LowerChar(w[0])}
    decreases |w|, t
  {
    match t
    case Leaf =>
      if |w| > 1 {
        InsertOrdered(Leaf, w[1..]);
      }
    case Node(l, key, _, c, r) =>
      if LowerChar(w[0]) < key {
        InsertOrdered(l, w);
      } else if LowerChar(w[0]) > key {
        InsertOrdered(r, w);
      } else if |w| > 1 {
        InsertOrdered(c, w[1..]);
      }
  }

  lemma {:induction false} PathStartsAtLevel(t: Tree, w: string)
    requires At(t, w).Node?
    ensures w != "" && w[0] in LevelKeys(t)
    decreases t
  {
    if w[0] < t.key {
      PathStartsAtLevel(t.left, w);
    } else if w[0] > t.key {
      PathStartsAtLevel(t.right, w);
    }
  }

  /** Continuing a path is looking up its remainder below the node the path leads to. */
  lemma {:induction false} AtContinues(t: Tree, stem: string, u: string)
    requires stem != "" && u != ""
    ensures At(t, stem + u) == if At(t, stem).Node? then At(At(t, stem).center, u) else Leaf
    decreases |stem|, t
  {
    if t.Node? {
      assert (stem + u)[1..] == stem[1..] + u;
      if stem[0] < t.key {
        AtContinues(t.left, stem, u);
      } else if stem[0] > t.key {
        AtContinues(t.right, stem, u);
      } else if |stem| > 1 {
        AtContinues(t.center, stem[1..], u);
      } else {
        assert (stem + u)[1..] == u;
      }
    }
  }

  lemma {:induction false} AtOrdered(t: Tree, w: string)
    requires Ordered(t)
    ensures Ordered(At(t, w))
    decreases |w|, t
  {
    if t.Node? && w != "" {
      if w[0] < t.key {
        AtOrdered(t.left, w);
      } else if w[0] > t.key {
        AtOrdered(t.right, w);
      } else if |w| > 1 {
        AtOrdered(t.center, w[1..]);
      }
    }
  }

  // ----- The length of the words -------------------------------------------------------------------------

  function Max(a: nat, b: nat): nat {
    if a < b then b else a
  }

  /** The length of the longest path. */
  ghost function Depth(t: Tree): nat {
    match t
    case Leaf => 0
    case Node(l, _, _, c, r) => Max(1 + Depth(c), Max(Depth(l), Depth(r)))
  }

  lemma {:induction false} InsertDepth(t: Tree, w: string)
    requires w != ""
    ensures Depth(Insert(t, w)) <= Max(Depth(t), |w|)
    decreases |w|, t
  {
    match t
    case Leaf =>
      if |w| > 1 {
        InsertDepth(Leaf, w[1..]);
      }
    case Node(l, key, _, c, r) =>
      if LowerChar(w[0]) < key {
        InsertDepth(l, w);
      } else if LowerChar(w[0]) > key {
        InsertDepth(r, w);
      } else if |w| > 1 {
        InsertDepth(c, w[1..]);
      }
  }

  lemma {:induction false} AtDepth(t: Tree, w: string)
    requires At(t, w).Node?
    ensures |w| + Depth(At(t, w).center) <= Depth(t)
    decreases |w|, t
  {
    if w[0] < t.key {
      AtDepth(t.left, w);
    } else if w[0] > t.key {
      AtDepth(t.right, w);
    } else if |w| > 1 {
      AtDepth(t.center, w[1..]);
    }
  }

  // ----- The order in which words are extrapolated -------------------------------------------------------

  /** A clamp other than 0 ends the walk at a stored word whose distance from the query exceeds it. */
  ghost predicate Clamped(w: string, query: string, maxDiff: int) {
    maxDiff != 0 && Distance(query, w) > maxDiff
  }

  /** The words met below the prefix `pre`, in the order of the walk: a node, left, center, right. */
  ghost function Walk(t: Tree, pre: string, query: string, maxDiff: int): seq<string> {
    match t
    case Leaf => []
    case Node(l, key, terminator, c, r) =>
      var w := pre + [key];
      if terminator && Clamped(w, query, maxDiff) then []
      else
        (if terminator then [w] else [])
        + Walk(l, pre, query, maxDiff) + Walk(c, w, query, maxDiff) + Walk(r, pre, query, maxDiff)
  }

  /** `w` is `pre` continued by a word stored in `t`. */
  ghost predicate Extends(t: Tree, pre: string, w: string) {
    |pre| < |w| && w[..|pre|] == pre && Has(t, w[|pre|..])
  }

  /** The ways in which a stored word can begin at a node. */
  lemma HasCases(t: Tree, u: string)
    requires t.Node? && Ordered(t) && u != ""
    ensures Has(t, u) <==>
            || (u[0] == t.key && if |u| == 1 then t.terminator else Has(t.center, u[1..]))
            || Has(t.left, u) || Has(t.right, u)
  {
    assert At(t, u) ==
           if u[0] < t.key then At(t.left, u)
           else if u[0] > t.key then At(t.right, u)
           else if |u| == 1 then t
           else At(t.center, u[1..]);
    hide At;
    if Has(t.left, u) {
      PathStartsAtLevel(t.left, u);
      assert u[0] < t.key;
    }
    if Has(t.right, u) {
      PathStartsAtLevel(t.right, u);
      assert u[0] > t.key;
    }
  }

  /** The ways in which a stored continuation of `pre` can begin at a node. */
  lemma ExtendsCases(t: Tree, pre: string, w: string)
    requires t.Node? && Ordered(t)
    ensures Extends(t, pre, w) <==>
            || (t.terminator && w == pre + [t.key])
            || Extends(t.left, pre, w) || Extends(t.center, pre + [t.key], w) || Extends(t.right, pre, w)
  {
    hide Has, Ordered;
    var p := pre + [t.key];
    if |pre| < |w| && w[..|pre|] == pre {
      var u := w[|pre|..];
      HasCases(t, u);
      assert w == pre + u;
      if u[0] == t.key {
        assert u == [t.key] + u[1..];
        assert w == p + u[1..];
      }
    }
    if |p| <= |w| && w[..|p|] == p {
      assert w[..|pre|] == p[..|pre|] == pre;
      assert w[|pre|] == p[|pre|];
      assert w[|pre|..][1..] == w[|p|..];
    }
  }

  /** A walk only yields stored words within the clamp. */
  lemma {:induction false} WalkSound(t: Tree, pre: string, query: string, maxDiff: int, w: string)
    requires Ordered(t) && w in Walk(t, pre, query, maxDiff)
    ensures Extends(t, pre, w) && (maxDiff == 0 || Distance(query, w) <= maxDiff)
    decreases t
  {
    var p := pre + [t.key];
    ExtendsCases(t, pre, w);
    if w in Walk(t.left, pre, query, maxDiff) {
      WalkSound(t.left, pre, query, maxDiff, w);
    } else if w in Walk(t.center, p, query, maxDiff) {
      WalkSound(t.center, p, query, maxDiff, w);
    } else if w in Walk(t.right, pre, query, maxDiff) {
      WalkSound(t.right, pre, query, maxDiff, w);
    }
  }

  /** Without a clamp a walk yields every stored word that continues the prefix. */
  lemma {:induction false} WalkComplete(t: Tree, pre: string, query: string, w: string)
    requires Ordered(t) && Extends(t, pre, w)
    ensures w in Walk(t, pre, query, 0)
    decreases t
  {
    var p := pre + [t.key];
    ExtendsCases(t, pre, w);
    if Extends(t.left, pre, w) {
      WalkComplete(t.left, pre, query, w);
    } else if Extends(t.center, p, w) {
      WalkComplete(t.center, p, query, w);
    } else if Extends(t.right, pre, w) {
      WalkComplete(t.right, pre, query, w);
    }
  }

  /** A clamp leaves a walk as it is exactly if no stored continuation of the prefix exceeds it. */
  lemma ClampHarmlessIff(t: Tree, pre: string, query: string, maxDiff: int)
    requires Ordered(t)
    ensures Walk(t, pre, query, maxDiff) == Walk(t, pre, query, 0) <==>
            forall w :: Extends(t, pre, w) ==> maxDiff == 0 || Distance(query, w) <= maxDiff
  {
    hide Walk, Extends, Distance;
    if forall w :: Extends(t, pre, w) ==> !Clamped(w, query, maxDiff) {
      WalkUnclamped(t, pre, query, maxDiff);
    } else {
      var w :| Extends(t, pre, w) && Clamped(w, query, maxDiff);
      WalkComplete(t, pre, query, w);
      if w in Walk(t, pre, query, maxDiff) {
        WalkSound(t, pre, query, maxDiff, w);
      }
    }
  }

  lemma {:induction false} WalkUnclamped(t: Tree, pre: string, query: string, maxDiff: int)
    requires Ordered(t) && forall w :: Extends(t, pre, w) ==> !Clamped(w, query, maxDiff)
    ensures Walk(t, pre, query, maxDiff) == Walk(t, pre, query, 0)
    decreases t
  {
    hide Extends;
    if t.Node? {
      forall w {
        ExtendsCases(t, pre, w);
      }
      WalkUnclamped(t.left, pre, query, maxDiff);
      WalkUnclamped(t.center, pre + [t.key], query, maxDiff);
      WalkUnclamped(t.right, pre, query, maxDiff);
    }
  }

  /** A walk meets no word twice. */
  lemma {:induction false} WalkNoRepeats(t: Tree, pre: string, query: string, maxDiff: int)
    requires Ordered(t)
    ensures NoRepeats(Walk(t, pre, query, maxDiff))
    decreases t
  {
    if t.Node? {
      var p := pre + [t.key];
      var own := if t.terminator then [p] else [];
      var l, c, r := Walk(t.left, pre, query, maxDiff), Walk(t.center, p, query, maxDiff),
                     Walk(t.right, pre, query, maxDiff);
      WalkNoRepeats(t.left, pre, query, maxDiff);
      WalkNoRepeats(t.center, p, query, maxDiff);
      WalkNoRepeats(t.right, pre, query, maxDiff);
      forall w
        ensures w in l ==> |w| > |pre| && w[|pre|] < t.key
        ensures w in c ==> |w| > |pre| + 1 && w[|pre|] == t.key
        ensures w in r ==> |w| > |pre| && w[|pre|] > t.key
      {
        if w in l {
          WalkSound(t.left, pre, query, maxDiff, w);
          PathStartsAtLevel(t.left, w[|pre|..]);
        }
        if w in c {
          WalkSound(t.center, p, query, maxDiff, w);
          assert w[|pre|] == w[..|p|][|pre|] == p[|pre|];
        }
        if w in r {
          WalkSound(t.right, pre, query, maxDiff, w);
          PathStartsAtLevel(t.right, w[|pre|..]);
        }
      }
      NoRepeatsConcat(own, l);
      NoRepeatsConcat(own + l, c);
      NoRepeatsConcat(own + l + c, r);
    }
  }

  // ----- The order of a walk -----------------------------------------------------------------------------

  /**
   Of two stored continuations `v` is met before `w`: at the node where their ways part, the word that ends
   there comes first, then those that go left, those that go on after the node's character, and those that
   go right.
   */
  ghost predicate Earlier(t: Tree, pre: string, v: string, w: string) {
    match t
    case Leaf => false
    case Node(l, key, terminator, c, r) =>
      var p := pre + [key];
      || (terminator && v == p && (Extends(l, pre, w) || Extends(c, p, w) || Extends(r, pre, w)))
      || (Extends(l, pre, v) && (Extends(c, p, w) || Extends(r, pre, w)))
      || (Extends(c, p, v) && Extends(r, pre, w))
      || Earlier(l, pre, v, w) || Earlier(c, p, v, w) || Earlier(r, pre, v, w)
  }

  ghost predicate InWalkOrder(t: Tree, pre: string, list: seq<string>) {
    forall i, j :: 0 <= i < j < |list| ==> Earlier(t, pre, list[i], list[j])
  }

  lemma InWalkOrderConcat(t: Tree, pre: string, a: seq<string>, b: seq<string>)
    requires InWalkOrder(t, pre, a) && InWalkOrder(t, pre, b)
    requires forall v, w :: v in a && w in b ==> Earlier(t, pre, v, w)
    ensures InWalkOrder(t, pre, a + b)
  {
    hide Earlier;
    forall i, j | 0 <= i < j < |a + b|
      ensures Earlier(t, pre, (a + b)[i], (a + b)[j])
    {
      if i < |a| <= j {
        assert a[i] in a && b[j - |a|] in b;
      }
    }
  }

  /** A walk meets the words in this order. */
  lemma {:induction false} WalkInOrder(t: Tree, pre: string, query: string, maxDiff: int)
    requires Ordered(t)
    ensures InWalkOrder(t, pre, Walk(t, pre, query, maxDiff))
    decreases t
  {
    if t.Node? {
      var p := pre + [t.key];
      var own := if t.terminator then [p] else [];
      var l, c, r := Walk(t.left, pre, query, maxDiff), Walk(t.center, p, query, maxDiff),
                     Walk(t.right, pre, query, maxDiff);
      WalkInOrder(t.left, pre, query, maxDiff);
      WalkInOrder(t.center, p, query, maxDiff);
      WalkInOrder(t.right, pre, query, maxDiff);
      BranchesInOrder(t, pre, query, maxDiff, own, l, c, r);
      hide Walk, Earlier, Extends;
      InWalkOrderConcat(t, pre, own, l);
      InWalkOrderConcat(t, pre, own + l, c);
      InWalkOrderConcat(t, pre, own + l + c, r);
    }
  }

  lemma BranchesInOrder(t: Tree, pre: string, query: string, maxDiff: int, own: seq<string>, l: seq<string>,
                        c: seq<string>, r: seq<string>)
    requires t.Node? && Ordered(t) && own == if t.terminator then [pre + [t.key]] else []
    requires l == Walk(t.left, pre, query, maxDiff) && InWalkOrder(t.left, pre, l)
    requires c == Walk(t.center, pre + [t.key], query, maxDiff) && InWalkOrder(t.center, pre + [t.key], c)
    requires r == Walk(t.right, pre, query, maxDiff) && InWalkOrder(t.right, pre, r)
    ensures InWalkOrder(t, pre, own) && InWalkOrder(t, pre, l) && InWalkOrder(t, pre, c) && InWalkOrder(t, pre, r)
    ensures forall v, w :: v in own && w in l ==> Earlier(t, pre, v, w)
    ensures forall v, w :: v in own + l && w in c ==> Earlier(t, pre, v, w)
    ensures forall v, w :: v in own + l + c && w in r ==> Earlier(t, pre, v, w)
  {
    hide Extends, Walk;
    forall w
      ensures w in l ==> Extends(t.left, pre, w)
      ensures w in c ==> Extends(t.center, pre + [t.key], w)
      ensures w in r ==> Extends(t.right, pre, w)
    {
      if w in l {
        WalkSound(t.left, pre, query, maxDiff, w);
      }
      if w in c {
        WalkSound(t.center, pre + [t.key], query, maxDiff, w);
      }
      if w in r {
        WalkSound(t.right, pre, query, maxDiff, w);
      }
    }
  }

  /** The branch in which a stored continuation goes on shows in its next character. */
  lemma BranchCharacter(t: Tree, pre: string, w: string)
    requires t.Node? && Ordered(t)
    ensures Extends(t.left, pre, w) ==> |w| > |pre| && w[|pre|] < t.key
    ensures Extends(t.center, pre + [t.key], w) ==> |w| > |pre| + 1 && w[|pre|] == t.key
    ensures Extends(t.right, pre, w) ==> |w| > |pre| && w[|pre|] > t.key
  {
    if Extends(t.left, pre, w) {
      PathStartsAtLevel(t.left, w[|pre|..]);
    }
    if Extends(t.center, pre + [t.key], w) {
      assert w[..|pre| + 1][|pre|] == w[|pre|];
    }
    if Extends(t.right, pre, w) {
      PathStartsAtLevel(t.right, w[|pre|..]);
    }
  }

  /** Only stored continuations are ordered, and no two of them both ways. */
  lemma {:induction false} EarlierOneWay(t: Tree, pre: string, v: string, w: string)
    requires Ordered(t) && Earlier(t, pre, v, w)
    ensures Extends(t, pre, v) && Extends(t, pre, w) && !Earlier(t, pre, w, v)
    decreases t
  {
    var p := pre + [t.key];
    EarlierBranches(t, pre, v, w);
    EarlierBranches(t, pre, w, v);
    BranchCharacter(t, pre, v);
    BranchCharacter(t, pre, w);
    ExtendsCases(t, pre, v);
    ExtendsCases(t, pre, w);
    hide Extends, Ordered;
    if Earlier(t.left, pre, v, w) {
      EarlierOneWay(t.left, pre, v, w);
    } else if Earlier(t.center, p, v, w) {
      EarlierOneWay(t.center, p, v, w);
    } else if Earlier(t.right, pre, v, w) {
      EarlierOneWay(t.right, pre, v, w);
    }
  }

  /** Words ordered in a branch go on in that branch. */
  lemma {:induction false} EarlierBranches(t: Tree, pre: string, v: string, w: string)
    requires t.Node? && Ordered(t)
    ensures Earlier(t.left, pre, v, w) ==> Extends(t.left, pre, v) && Extends(t.left, pre, w)
    ensures Earlier(t.center, pre + [t.key], v, w) ==>
              Extends(t.center, pre + [t.key], v) && Extends(t.center, pre + [t.key], w)
    ensures Earlier(t.right, pre, v, w) ==> Extends(t.right, pre, v) && Extends(t.right, pre, w)
  {
    EarlierExtends(t.left, pre, v, w);
    EarlierExtends(t.center, pre + [t.key], v, w);
    EarlierExtends(t.right, pre, v, w);
  }

  lemma {:induction false} EarlierExtends(t: Tree, pre: string, v: string, w: string)
    requires Ordered(t)
    ensures Earlier(t, pre, v, w) ==> Extends(t, pre, v) && Extends(t, pre, w)
    decreases t
  {
    if t.Node? {
      ExtendsCases(t, pre, v);
      ExtendsCases(t, pre, w);
      EarlierExtends(t.left, pre, v, w);
      EarlierExtends(t.center, pre + [t.key], v, w);
      EarlierExtends(t.right, pre, v, w);
    }
  }
}
