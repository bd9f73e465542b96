/**
 The ternary search tree on the heap. Nodes of one level form a binary search tree whose nodes all point to
 the same parent: the node whose center owns that level.
 */
module TernaryTrees {
  import opened EditDistances
  import opened FuzzyFinds
  import opened Text
  import opened Ties
  import opened Tries

  class TNode {
    var parent: TNode?
    var left: TNode?
    var center: TNode?
    var right: TNode?
    var key: char
    var terminator: bool
    var upper: bool

    ghost var tree: Tree          // what the node and everything below it stand for
    ghost var Repr: set<TNode>    // the node and everything below it

    /**
     The invariant of a subtree whose level belongs to `p`: children are disjoint, the left and right
     children lie on the same level as the node, and the center starts the level that belongs to it.
     */
    ghost predicate Valid(p: TNode?)
      reads this, Repr
      ensures Valid(p) ==> this in Repr
      decreases Repr
    {
      && this in Repr
      && parent == p
      && 0 < key as int < 256
      && (left != null ==> left in Repr && left.Repr <= Repr && this !in left.Repr && left.Valid(p))
      && (center != null ==> center in Repr && center.Repr <= Repr && this !in center.Repr && center.Valid(this))
      && (right != null ==> right in Repr && right.Repr <= Repr && this !in right.Repr && right.Valid(p))
      && (left != null && center != null ==> left.Repr !! center.Repr)
      && (left != null && right != null ==> left.Repr !! right.Repr)
      && (center != null && right != null ==> center.Repr !! right.Repr)
      && tree == Node(TreeOf(left), key, terminator, TreeOf(center), TreeOf(right))
    }

    /** A node without children or parent, `TNode(key)` followed by `SetKey`. */
    constructor (c: char)
      requires 0 < c as int < 256
      ensures Valid(null) && fresh(Repr) && Repr == {this}
      ensures tree == Node(Leaf, LowerChar(c), false, Leaf, Leaf) && Folds(c, key)
      ensures left == center == right == null
    {
      LowerCharFolds(c, LowerChar(c));
      parent, left, center, right := null, null, null, null;
      terminator := false;
      upper := 'A' <= c <= 'Z';
      key := LowerChar(c);
      tree := Node(Leaf, LowerChar(c), false, Leaf, Leaf);
      Repr := {this};
    }

    /** Disjoint well-formed children of the right levels make a well-formed node. */
    lemma Assembled()
      requires ValidAt(left, parent) && ValidAt(center, this) && ValidAt(right, parent)
      requires this !in ReprOf(left) && this !in ReprOf(center) && this !in ReprOf(right)
      requires ReprOf(left) !! ReprOf(center) && ReprOf(left) !! ReprOf(right) && ReprOf(center) !! ReprOf(right)
      requires 0 < key as int < 256 && Repr == {this} + ReprOf(left) + ReprOf(center) + ReprOf(right)
      requires tree == Node(TreeOf(left), key, terminator, TreeOf(center), TreeOf(right))
      ensures Valid(parent)
    {
    }

    /** And conversely. */
    lemma Parts()
      requires Valid(parent)
      ensures ValidAt(left, parent) && ValidAt(center, this) && ValidAt(right, parent)
      ensures this !in ReprOf(left) && this !in ReprOf(center) && this !in ReprOf(right)
      ensures ReprOf(left) !! ReprOf(center) && ReprOf(left) !! ReprOf(right) && ReprOf(center) !! ReprOf(right)
      ensures 0 < key as int < 256 && {this} + ReprOf(left) + ReprOf(center) + ReprOf(right) <= Repr
      ensures tree == Node(TreeOf(left), key, terminator, TreeOf(center), TreeOf(right))
    {
    }

    /** `SetParent`. Only a node without siblings can be moved to the level of another parent. */
    method SetParent(p: TNode?)
      requires Valid(parent) && (parent != p ==> left == right == null)
      modifies `parent
      ensures Valid(p) && parent == p
    {
      parent := p;
    }

    /** Makes `t` the left child. It lies on the level of this node: from before, or as a new node without siblings. */
    method LinkLeft(t: TNode)
      requires 0 < key as int < 256
      requires ValidAt(center, this) && ValidAt(right, parent)
      requires t.Valid(t.parent) && (t.parent != parent ==> t.left == t.right == null)
      requires this !in t.Repr && this !in ReprOf(center) && this !in ReprOf(right)
      requires t.Repr !! ReprOf(center) && t.Repr !! ReprOf(right) && ReprOf(center) !! ReprOf(right)
      modifies `left, `tree, `Repr, t`parent
      ensures Valid(old(parent))
      ensures Repr == {this} + t.Repr + ReprOf(center) + ReprOf(right)
      ensures tree == Node(t.tree, key, terminator, TreeOf(center), TreeOf(right))
    {
      hide Valid;
      left := t;
      left.SetParent(parent);
      Repr := {this} + t.Repr + ReprOf(center) + ReprOf(right);
      tree := Node(t.tree, key, terminator, TreeOf(center), TreeOf(right));
      Assembled();
    }

    /** Makes `t` the right child, on the level of this node. */
    method LinkRight(t: TNode)
      requires 0 < key as int < 256
      requires ValidAt(left, parent) && ValidAt(center, this)
      requires t.Valid(t.parent) && (t.parent != parent ==> t.left == t.right == null)
      requires this !in t.Repr && this !in ReprOf(left) && this !in ReprOf(center)
      requires t.Repr !! ReprOf(left) && t.Repr !! ReprOf(center) && ReprOf(left) !! ReprOf(center)
      modifies `right, `tree, `Repr, t`parent
      ensures Valid(old(parent))
      ensures Repr == {this} + t.Repr + ReprOf(left) + ReprOf(center)
      ensures tree == Node(TreeOf(left), key, terminator, TreeOf(center), t.tree)
    {
      hide Valid;
      right := t;
      right.SetParent(parent);
      Repr := {this} + t.Repr + ReprOf(left) + ReprOf(center);
      tree := Node(TreeOf(left), key, terminator, TreeOf(center), t.tree);
      Assembled();
    }

    /** Makes `t` the center child, which starts the level that belongs to this node. */
    method LinkCenter(t: TNode)
      requires 0 < key as int < 256
      requires ValidAt(left, parent) && ValidAt(right, parent)
      requires t.Valid(t.parent) && (t.parent != this ==> t.left == t.right == null)
      requires this !in t.Repr && this !in ReprOf(left) && this !in ReprOf(right)
      requires t.Repr !! ReprOf(left) && t.Repr !! ReprOf(right) && ReprOf(left) !! ReprOf(right)
      modifies `center, `tree, `Repr, t`parent
      ensures Valid(old(parent))
      ensures Repr == {this} + t.Repr + ReprOf(left) + ReprOf(right)
      ensures tree == Node(TreeOf(left), key, terminator, t.tree, TreeOf(right))
    {
      hide Valid;
      center := t;
      center.SetParent(this);
      Repr := {this} + t.Repr + ReprOf(left) + ReprOf(right);
      tree := Node(TreeOf(left), key, terminator, t.tree, TreeOf(right));
      Assembled();
    }
  }

  ghost function TreeOf(n: TNode?): Tree
    reads n
  {
    if n == null then Leaf else n.tree
  }

  ghost function ReprOf(n: TNode?): set<TNode>
    reads n
  {
    if n == null then {} else n.Repr
  }

  /** `n` is absent, or a well-formed subtree whose level belongs to `p`. */
  ghost predicate ValidAt(n: TNode?, p: TNode?)
    reads n, ReprOf(n)
  {
    n != null ==> n.Valid(p)
  }

  /** What a link without a node leads to. A center insertion may start there: what shrinks is its word. */
  ghost const NO_NODES: set<TNode> := {}

  /** Inserts `word` at the link that holds `node`, and returns what that link holds afterwards. */
  method InsertNode(word: string, node: TNode?, ghost p: TNode?) returns (n: TNode)
    requires word != "" && IsBytes(word)
    requires ValidAt(node, p)
    modifies ReprOf(node)
    ensures n.Valid(if node == null then null else p)
    ensures n.tree == Insert(old(TreeOf(node)), word)
    ensures node != null ==> n == node
    ensures node == null ==> n.left == n.right == null
    ensures fresh(n.Repr - old(ReprOf(node)))
    decreases |word|, ReprOf(node), 1
  {
    if node == null {
      n := new TNode(word[0]);
    } else {
      n := node;
    }
    if Compared(word[0]) < n.key as int {
      InsertLeft(word, n);
    } else if Compared(word[0]) > n.key as int {
      InsertRight(word, n);
    } else if |word| > 1 {
      InsertCenter(word, n);
    } else {
      n.terminator := true;
      n.tree := n.tree.(terminator := true);
    }
  }

  method InsertLeft(word: string, n: TNode)
    requires word != "" && IsBytes(word)
    requires n.Valid(n.parent)
    modifies n.Repr
    ensures n.Valid(old(n.parent)) && fresh(n.Repr - old(n.Repr))
    ensures n.tree == old(n.tree).(left := Insert(old(n.tree.left), word))
    decreases |word|, n.Repr, 0
  {
    hide TNode.Valid;
    n.Parts();
    var t := InsertNode(word, n.left, n.parent);
    n.LinkLeft(t);
  }

  method InsertRight(word: string, n: TNode)
    requires word != "" && IsBytes(word)
    requires n.Valid(n.parent)
    modifies n.Repr
    ensures n.Valid(old(n.parent)) && fresh(n.Repr - old(n.Repr))
    ensures n.tree == old(n.tree).(right := Insert(old(n.tree.right), word))
    decreases |word|, n.Repr, 0
  {
    hide TNode.Valid;
    n.Parts();
    var t := InsertNode(word, n.right, n.parent);
    n.LinkRight(t);
  }

  method InsertCenter(word: string, n: TNode)
    requires |word| > 1 && IsBytes(word)
    requires n.Valid(n.parent)
    modifies n.Repr
    ensures n.Valid(old(n.parent)) && fresh(n.Repr - old(n.Repr))
    ensures n.left == old(n.left) && n.right == old(n.right)
    ensures n.tree == old(n.tree).(center := Insert(old(n.tree.center), word[1..]))
    decreases |word|, NO_NODES, 0
  {
    hide TNode.Valid;
    n.Parts();
    var child := InsertNode(word[1..], n.center, n);
    n.LinkCenter(child);
  }

  /** A character as the C++ `char` it is held in. */
  function Signed(c: char): int {
    if c as int < 128 then c as int else c as int - 256
  }

  /**
   Looks `word` up below `node`. The node at which its path ends is reported even when it carries no
   terminator; when the lookup leaves the tree `terminal` is passed through.
   */
  method FindNode(word: string, node: TNode?, ghost p: TNode?, terminal: TNode?)
    returns (found: bool, reached: TNode?)
    requires IsBytes(word) && ValidAt(node, p)
    ensures found <==> Sought(TreeOf(node), word).Node? && Sought(TreeOf(node), word).terminator
    ensures Sought(TreeOf(node), word) == Leaf ==> reached == terminal
    ensures Sought(TreeOf(node), word).Node? ==>
              reached != null && reached.Valid(reached.parent) && reached.tree == Sought(TreeOf(node), word)
    decreases ReprOf(node)
  {
    found, reached := false, terminal;
    if node != null {
      var first := if word == "" then 0 else Signed(word[0]);
      if first < node.key as int {
        found, reached := FindNode(word, node.left, p, terminal);
      } else if first > node.key as int {
        found, reached := FindNode(word, node.right, p, terminal);
      } else if |word| == 1 {
        found, reached := node.terminator, node;
      } else {
        found, reached := FindNode(word[1..], node.center, node, terminal);
      }
    }
  }

  /** Climbing parents from the last node of `path` reaches `root` and spells `pre` backwards. */
  ghost predicate Climbs(path: seq<TNode>, root: TNode, pre: string)
    reads path
  {
    && |path| == |pre| + 1
    && path[0] == root
    && forall i :: 0 < i < |path| ==> path[i].parent == path[i - 1] && path[i].key == pre[i - 1] && path[i] != root
  }

  class TernaryTree {
    var root: TNode?
    var tieHwm: int
    var maxDiff: int

    ghost predicate Valid()
      reads this, root, ReprOf(root)
    {
      ValidAt(root, null) && Ordered(TreeOf(root)) && Depth(TreeOf(root)) < MAX_TEXT
    }

    constructor ()
      ensures Valid() && root == null && tieHwm == 0 && maxDiff == 10
    {
      root, tieHwm, maxDiff := null, 0, 10;
    }

    /** Stores the lower-cased word and keeps everything else as it was. */
    method Insert(word: string)
      requires Valid() && word != "" && IsBytes(word) && |word| < MAX_TEXT
      modifies this`root, ReprOf(root)
      ensures Valid() && fresh(ReprOf(root) - old(ReprOf(root)))
      ensures TreeOf(root) == Tries.Insert(old(TreeOf(root)), word)
      ensures forall w :: Has(TreeOf(root), w) <==> FoldsTo(word, w) || Has(old(TreeOf(root)), w)
    {
      hide Tries.Insert, Ordered, Depth, Has, FoldsTo;
      InsertOrdered(TreeOf(root), word);
      InsertDepth(TreeOf(root), word);
      forall w {
        InsertAddsWord(TreeOf(root), word, w);
      }
      var n := InsertNode(word, root, null);
      root := n;
    }

    method Find(word: string) returns (found: bool)
      requires Valid() && IsBytes(word)
      ensures found <==> IsText(word) && Has(TreeOf(root), word)
    {
      var reached;
      found, reached := FindNode(word, root, null, null);
    }

    /** Spells the characters between `top` and `node` by climbing from parent to parent. */
    method Climb(top: TNode, node: TNode, accum: seq<char>, ghost path: seq<TNode>, ghost pre: string)
      returns (spelled: seq<char>)
      requires accum == []
      requires Climbs(path, top, pre) && node.parent == path[|path| - 1] && node != top
      ensures spelled == pre + [node.key]
    {
      spelled := accum;
      var cur: TNode? := node;
      ghost var i := |path|;
      while cur != top && cur != null
        invariant 0 <= i <= |path|
        invariant cur == if i == |path| then node else path[i]
        invariant spelled == if i == |path| then [] else pre[i..] + [node.key]
        decreases i
      {
        spelled := [cur.key] + spelled;
        cur := cur.parent;
        i := i - 1;
      }
    }

    /** Puts a word of score `score` under the next key of that score. */
    method KeepScore(words: map<int, string>, ties: map<int, int>, ghost query: string, compound: string, score: int)
      returns (words': map<int, string>, ties': map<int, int>)
      requires score == Distance(query, compound)
      modifies this`tieHwm
      ensures Scores(words', ties', tieHwm) == Record(Scores(words, ties, old(tieHwm)), query, compound)
      ensures score in ties' && words' == words[ties'[score] + 4096 * score := compound]
    {
      var tie := 0;
      if score !in ties {
        ties' := ties[score := 0];
      } else {
        ties' := ties[score := ties[score] + 1];
        tie := ties'[score];
        if tie > tieHwm {
          tieHwm := tie;
        }
      }
      words' := words[tie + score * TIE_SPAN := compound];
    }

    /** Walks the level of `node` and everything below it, and records each stored word that is met. */
    method Extrapolate(top: TNode, node: TNode?, words: map<int, string>, accum: seq<char>, stem: string,
                       word: string, ties: map<int, int>, maxDiff: int, ghost path: seq<TNode>, ghost pre: string)
      returns (words': map<int, string>, accum': seq<char>, ties': map<int, int>)
      requires accum == []
      requires Climbs(path, top, pre)
      requires ValidAt(node, path[|path| - 1]) && top !in ReprOf(node)
      requires |stem + pre| + Depth(TreeOf(node)) < MAX_TEXT && |word| < MAX_TEXT
      modifies this`tieHwm
      ensures accum' == []
      ensures Scores(words', ties', tieHwm) ==
              RecordAll(Scores(words, ties, old(tieHwm)), word, Walk(TreeOf(node), stem + pre, word, maxDiff))
      decreases ReprOf(node), 1
    {
      hide Distance, Walk, WalkBelow, RecordAll, Record, Climbs;
      RecordWalk(Scores(words, ties, tieHwm), TreeOf(node), stem + pre, word, maxDiff);
      words', accum', ties' := words, accum, ties;
      if node == null {
        return;
      }
      assert stem + (pre + [node.key]) == stem + pre + [node.key];
      if node.terminator {
        accum' := Climb(top, node, accum', path, pre);
        var compound := stem + accum';
        var score := CalcLevenshtein(word, compound);
        if maxDiff != 0 && score > maxDiff {
          accum' := [];
          return;
        }
        words', ties' := KeepScore(words', ties', word, compound, score);
        accum' := [];
      }
      words', ties' := ExtrapolateBelow(top, node, words', stem, word, ties', maxDiff, path, pre);
    }

    /** The recursive half of `Extrapolate`: left, center, right. */
    method ExtrapolateBelow(top: TNode, node: TNode, words: map<int, string>, stem: string, word: string,
                            ties: map<int, int>, maxDiff: int, ghost path: seq<TNode>, ghost pre: string)
      returns (words': map<int, string>, ties': map<int, int>)
      requires Climbs(path, top, pre)
      requires node.Valid(path[|path| - 1]) && top !in node.Repr
      requires |stem + pre| + Depth(node.tree) < MAX_TEXT && |word| < MAX_TEXT
      modifies this`tieHwm
      ensures Scores(words', ties', tieHwm) ==
              RecordAll(Scores(words, ties, old(tieHwm)), word, WalkBelow(node.tree, stem + pre, word, maxDiff))
      decreases node.Repr, 0
    {
      hide Walk, RecordAll;
      var accum;
      words', accum, ties' := Extrapolate(top, node.left, words, [], stem, word, ties, maxDiff, path, pre);
      assert Climbs(path + [node], top, pre + [node.key]);
      words', accum, ties' := Extrapolate(top, node.center, words', accum, stem, word, ties', maxDiff,
                                          path + [node], pre + [node.key]);
      words', accum, ties' := Extrapolate(top, node.right, words', accum, stem, word, ties', maxDiff, path, pre);
      assert stem + (pre + [node.key]) == stem + pre + [node.key];
      RecordThree(Scores(words, ties, old(tieHwm)), word, Walk(node.tree.left, stem + pre, word, maxDiff),
                  Walk(node.tree.center, stem + pre + [node.key], word, maxDiff),
                  Walk(node.tree.right, stem + pre, word, maxDiff));
    }

    method ExtrapolateAll(node: TNode, words: map<int, string>, accum: seq<char>, stem: string, word: string)
      returns (words': map<int, string>)
      requires accum == [] && node.Valid(node.parent)
      requires |stem| + Depth(node.tree.center) < MAX_TEXT && |word| < MAX_TEXT
      modifies this`tieHwm
      ensures var r := RecordAll(Scores(words, map[], old(tieHwm)), word,
                                 Walk(node.tree.center, stem, word, maxDiff));
              words' == r.words && tieHwm == r.hwm
    {
      assert stem + "" == stem;
      var accum', ties;
      words', accum', ties := Extrapolate(node, node.center, words, accum, stem, word, map[], maxDiff, [node], "");
    }

    /** Fills `words` with the stored words that continue the longest prefix of `word` that is a path. */
    method FuzzyFind(word: string, words: map<int, string>) returns (words': map<int, string>)
      requires Valid() && IsText(word) && |word| < MAX_TEXT
      modifies this`tieHwm
      ensures words' == Found(TreeOf(root), word, words, maxDiff).words
      ensures tieHwm == Found(TreeOf(root), word, words, maxDiff).hwm
    {
      tieHwm := 0;
      var searchWord := word;
      var node: TNode? := null;
      words' := words;
      while |searchWord| > 0
        invariant IsText(searchWord) && |searchWord| <= |word|
        invariant node == null && words' == words && tieHwm == 0
        invariant Stem(TreeOf(root), searchWord) == Stem(TreeOf(root), word)
      {
        var found;
        found, node := FindNode(searchWord, root, null, node);
        if found {
          words' := words'[0 := searchWord];
          break;
        }
        if node != null {
          break;
        }
        searchWord := searchWord[..|searchWord| - 1];
      }
      if node != null {
        AtDepth(TreeOf(root), searchWord);
        words' := ExtrapolateAll(node, words', [], searchWord, word);
      }
    }
  }

  /** The part of a walk after the node itself. */
  ghost function WalkBelow(t: Tree, pre: string, query: string, maxDiff: int): seq<string>
    requires t.Node?
  {
    Walk(t.left, pre, query, maxDiff)
    + (Walk(t.center, pre + [t.key], query, maxDiff) + Walk(t.right, pre, query, maxDiff))
  }

  /** Recording a walk is recording the word at the node, unless it is clamped, and then the rest. */
  lemma RecordWalk(s: Scores, t: Tree, pre: string, query: string, maxDiff: int)
    ensures t == Leaf ==> RecordAll(s, query, Walk(t, pre, query, maxDiff)) == s
    ensures t.Node? && t.terminator && Clamped(pre + [t.key], query, maxDiff) ==>
              RecordAll(s, query, Walk(t, pre, query, maxDiff)) == s
    ensures t.Node? && !(t.terminator && Clamped(pre + [t.key], query, maxDiff)) ==>
              RecordAll(s, query, Walk(t, pre, query, maxDiff)) ==
              RecordAll(if t.terminator then Record(s, query, pre + [t.key]) else s, query,
                        WalkBelow(t, pre, query, maxDiff))
  {
    if t.Node? && !(t.terminator && Clamped(pre + [t.key], query, maxDiff)) {
      var own := if t.terminator then [pre + [t.key]] else [];
      assert Walk(t, pre, query, maxDiff) == own + WalkBelow(t, pre, query, maxDiff);
      RecordAllConcat(s, query, own, WalkBelow(t, pre, query, maxDiff));
    }
  }

  lemma RecordThree(s: Scores, query: string, a: seq<string>, b: seq<string>, c: seq<string>)
    ensures RecordAll(s, query, a + (b + c)) == RecordAll(RecordAll(RecordAll(s, query, a), query, b), query, c)
  {
    RecordAllConcat(s, query, a, b + c);
    RecordAllConcat(RecordAll(s, query, a), query, b, c);
  }
}
