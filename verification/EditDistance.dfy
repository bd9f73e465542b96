/**
 Edit distance. `Distance` is the two-argument recursion on the last characters; it is shown to be the
 least number of single-character edits and a metric, and the one-column program that the tree runs to
 score its words is shown to compute it.
 */
module EditDistances {

  function Min3(a: nat, b: nat, c: nat): nat {
    if a < b then (if a < c then a else c) else if b < c then b else c
  }

  ghost function Distance(s: string, t: string): nat
    decreases |s| + |t|
  {
    if s == "" then |t|
    else if t == "" then |s|
    else
      Min3(Distance(s, Front(t)) + 1, Distance(Front(s), t) + 1,
           Distance(Front(s), Front(t)) + (if Last(s) == Last(t) then 0 else 1))
  }

  function Front(s: string): string
    requires s != ""
  {
    s[..|s| - 1]
  }

  function Last(s: string): char
    requires s != ""
  {
    s[|s| - 1]
  }

  lemma FrontLast(s: string)
    requires s != ""
    ensures s == Front(s) + [Last(s)]
  {
  }

  // ----- Distance is a metric ----------------------------------------------------------------------------

  lemma {:induction false} Symmetric(s: string, t: string)
    ensures Distance(s, t) == Distance(t, s)
    decreases |s| + |t|
  {
    if s != "" && t != "" {
      Symmetric(s, Front(t));
      Symmetric(Front(s), t);
      Symmetric(Front(s), Front(t));
    }
  }

  lemma {:induction false} ZeroIffEqual(s: string, t: string)
    ensures Distance(s, t) == 0 <==> s == t
    decreases |s| + |t|
  {
    if s != "" && t != "" {
      FrontLast(s);
      FrontLast(t);
      ZeroIffEqual(Front(s), Front(t));
    }
  }

  /** A distance is the least of the three ways to treat the last characters. */
  lemma DistanceCases(s: string, t: string)
    requires s != "" && t != ""
    ensures Distance(s, t) <= Distance(s, Front(t)) + 1
    ensures Distance(s, t) <= Distance(Front(s), t) + 1
    ensures Distance(s, t) <= Distance(Front(s), Front(t)) + (if Last(s) == Last(t) then 0 else 1)
    ensures || Distance(s, t) == Distance(s, Front(t)) + 1 || Distance(s, t) == Distance(Front(s), t) + 1
            || Distance(s, t) == Distance(Front(s), Front(t)) + (if Last(s) == Last(t) then 0 else 1)
  {
  }

  lemma {:induction false} Triangle(s: string, t: string, u: string)
    ensures Distance(s, u) <= Distance(s, t) + Distance(t, u)
    decreases |s| + |t| + |u|
  {
    if s == "" || t == "" || u == "" {
      LengthBounds(s, t);
      LengthBounds(t, u);
      LengthBounds(s, u);
    } else {
      hide Distance;
      DistanceCases(s, t);
      DistanceCases(t, u);
      DistanceCases(s, u);
      if Distance(t, u) == Distance(t, Front(u)) + 1 {
        Triangle(s, t, Front(u));
      } else if Distance(s, t) == Distance(Front(s), t) + 1 {
        Triangle(Front(s), t, u);
      } else {
        var s' := if Distance(s, t) == Distance(s, Front(t)) + 1 then s else Front(s);
        var u' := if Distance(t, u) == Distance(Front(t), u) + 1 then u else Front(u);
        Triangle(s', Front(t), u');
      }
    }
  }

  /** A distance lies between the difference of the lengths and the longer of them. */
  lemma {:induction false} LengthBounds(s: string, t: string)
    ensures |s| <= |t| + Distance(s, t) && |t| <= |s| + Distance(s, t)
    ensures Distance(s, t) <= |s| || Distance(s, t) <= |t|
    decreases |s| + |t|
  {
    if s != "" && t != "" {
      LengthBounds(s, Front(t));
      LengthBounds(Front(s), t);
      LengthBounds(Front(s), Front(t));
    }
  }

  /** A word and an extension of it differ by the length of the extension. */
  lemma DistanceToExtension(w: string, s: string)
    ensures Distance(w, w + s) == |s|
  {
    ExtensionUpperBound(w, s);
    LengthBounds(w, w + s);
  }

  lemma {:induction false} ExtensionUpperBound(w: string, s: string)
    ensures Distance(w, w + s) <= |s|
    decreases |s|
  {
    if s == "" {
      assert w + s == w;
      ZeroIffEqual(w, w);
    } else {
      assert w + s != "" && Front(w + s) == w + Front(s);
      ExtensionUpperBound(w, Front(s));
    }
  }

  // ----- Distance is the least number of edits -----------------------------------------------------------

  /** `t` is `s` with one character inserted at position `i`. */
  ghost predicate Inserted(s: string, t: string, i: nat) {
    i < |t| && s == t[..i] + t[i + 1..]
  }

  /** `t` is `s` with the character at position `i` changed. */
  ghost predicate Substituted(s: string, t: string, i: nat) {
    |s| == |t| && i < |s| && t == s[i := t[i]]
  }

  /** One single-character insertion, deletion or substitution turns `s` into `t`. */
  ghost predicate Edit(s: string, t: string) {
    exists i: nat :: Inserted(s, t, i) || Inserted(t, s, i) || Substituted(s, t, i)
  }

  /** A sequence of texts each of which is one edit away from the next. */
  ghost predicate EditPath(path: seq<string>) {
    |path| > 0 && forall k :: 0 <= k < |path| - 1 ==> Edit(path[k], path[k + 1])
  }

  /** No sequence of edits is shorter than the distance, and one is exactly as long. */
  lemma DistanceIsLeastEdits(s: string, t: string)
    ensures forall path :: EditPath(path) && path[0] == s && path[|path| - 1] == t ==>
                             Distance(s, t) <= |path| - 1
    ensures exists path :: EditPath(path) && path[0] == s && path[|path| - 1] == t &&
                           |path| - 1 == Distance(s, t)
  {
    forall path | EditPath(path) && path[0] == s && path[|path| - 1] == t
      ensures Distance(s, t) <= |path| - 1
    {
      EditsBoundDistance(path);
    }
    var path := ShortestEdits(s, t);
  }

  lemma {:induction false} EditsBoundDistance(path: seq<string>)
    requires EditPath(path)
    ensures Distance(path[0], path[|path| - 1]) <= |path| - 1
    decreases |path|
  {
    if |path| == 1 {
      ZeroIffEqual(path[0], path[0]);
    } else {
      assert Edit(path[0], path[0 + 1]);
      EditCostsOne(path[0], path[1]);
      var rest := path[1..];
      assert EditPath(rest) by {
        forall k | 0 <= k < |rest| - 1
          ensures Edit(rest[k], rest[k + 1])
        {
          assert Edit(path[k + 1], path[k + 1 + 1]);
        }
      }
      EditsBoundDistance(rest);
      Triangle(path[0], path[1], path[|path| - 1]);
    }
  }

  lemma EditCostsOne(s: string, t: string)
    requires Edit(s, t)
    ensures Distance(s, t) <= 1
  {
    var i: nat :| Inserted(s, t, i) || Inserted(t, s, i) || Substituted(s, t, i);
    if Inserted(s, t, i) {
      InsertionCostsOne(s, t, i);
    } else if Inserted(t, s, i) {
      InsertionCostsOne(t, s, i);
      Symmetric(s, t);
    } else {
      SubstitutionCostsOne(s, t, i);
    }
  }

  lemma {:induction false} InsertionCostsOne(s: string, t: string, i: nat)
    requires Inserted(s, t, i)
    ensures Distance(s, t) <= 1
    decreases |t|
  {
    if i == |t| - 1 {
      assert s == Front(t);
      ZeroIffEqual(s, Front(t));
    } else {
      assert Front(s) == Front(t)[..i] + Front(t)[i + 1..];
      InsertionCostsOne(Front(s), Front(t), i);
    }
  }

  lemma {:induction false} SubstitutionCostsOne(s: string, t: string, i: nat)
    requires Substituted(s, t, i)
    ensures Distance(s, t) <= 1
    decreases |t|
  {
    if i == |t| - 1 {
      assert Front(s) == Front(t);
      ZeroIffEqual(Front(s), Front(t));
    } else {
      assert Front(t) == Front(s)[i := Front(t)[i]];
      SubstitutionCostsOne(Front(s), Front(t), i);
    }
  }

  lemma {:induction false} ShortestEdits(s: string, t: string) returns (path: seq<string>)
    ensures EditPath(path) && path[0] == s && path[|path| - 1] == t
    ensures |path| - 1 == Distance(s, t)
    decreases |s| + |t|
  {
    EmptyDistance(s, t);
    hide Distance, Edit;
    if s == "" && t == "" {
      path := [s];
    } else if s == "" || (t != "" && Distance(s, t) == Distance(s, Front(t)) + 1) {
      EmptyDistance(s, Front(t));
      path := ShortestEdits(s, Front(t));
      LastEdit(t);
      path := Continued(path, t);
    } else if t == "" || Distance(s, t) == Distance(Front(s), t) + 1 {
      EmptyDistance(Front(s), t);
      path := ShortestEdits(Front(s), t);
      LastEdit(s);
      path := Preceded(s, path);
    } else {
      DistanceCases(s, t);
      path := ShortestEdits(Front(s), Front(t));
      path := Appended(path, Last(s));
      FrontLast(s);
      FrontLast(t);
      if Last(s) != Last(t) {
        LastSubstituted(Front(t), Last(s), Last(t));
        path := Continued(path, t);
      }
    }
  }

  lemma EmptyDistance(s: string, t: string)
    ensures s == "" ==> Distance(s, t) == |t|
    ensures t == "" ==> Distance(s, t) == |s|
  {
  }

  lemma LastEdit(t: string)
    requires t != ""
    ensures Edit(Front(t), t) && Edit(t, Front(t))
  {
    assert Inserted(Front(t), t, |t| - 1);
  }

  lemma LastSubstituted(s: string, c: char, d: char)
    ensures Edit(s + [c], s + [d])
  {
    assert Substituted(s + [c], s + [d], |s|);
  }

  lemma Continued(path: seq<string>, t: string) returns (r: seq<string>)
    requires EditPath(path) && Edit(path[|path| - 1], t)
    ensures EditPath(r) && |r| == |path| + 1 && r[0] == path[0] && r[|r| - 1] == t
  {
    r := path + [t];
    forall k | 0 <= k < |r| - 1
      ensures Edit(r[k], r[k + 1])
    {
      if k < |path| - 1 {
        assert Edit(path[k], path[k + 1]);
      }
    }
  }

  lemma Preceded(s: string, path: seq<string>) returns (r: seq<string>)
    requires EditPath(path) && Edit(s, path[0])
    ensures EditPath(r) && |r| == |path| + 1 && r[0] == s && r[|r| - 1] == path[|path| - 1]
  {
    r := [s] + path;
    forall k | 0 <= k < |r| - 1
      ensures Edit(r[k], r[k + 1])
    {
      if k > 0 {
        assert Edit(path[k - 1], path[k - 1 + 1]);
      }
    }
  }

  /** The same edits carried out in front of a common last character. */
  lemma Appended(path: seq<string>, c: char) returns (r: seq<string>)
    requires EditPath(path)
    ensures EditPath(r) && |r| == |path|
    ensures r[0] == path[0] + [c] && r[|r| - 1] == path[|path| - 1] + [c]
  {
    r := seq(|path|, k requires 0 <= k < |path| => path[k] + [c]);
    forall k | 0 <= k < |r| - 1
      ensures Edit(r[k], r[k + 1])
    {
      assert Edit(path[k], path[k + 1]);
      EditBeforeLast(path[k], path[k + 1], c);
    }
  }

  lemma EditBeforeLast(s: string, t: string, c: char)
    requires Edit(s, t)
    ensures Edit(s + [c], t + [c])
  {
    var i: nat :| Inserted(s, t, i) || Inserted(t, s, i) || Substituted(s, t, i);
    if Inserted(s, t, i) {
      InsertedBeforeLast(s, t, i, c);
    } else if Inserted(t, s, i) {
      InsertedBeforeLast(t, s, i, c);
    } else {
      assert (t + [c])[i] == t[i] && t + [c] == (s + [c])[i := t[i]];
      assert Substituted(s + [c], t + [c], i);
    }
  }

  lemma InsertedBeforeLast(s: string, t: string, i: nat, c: char)
    requires Inserted(s, t, i)
    ensures Inserted(s + [c], t + [c], i)
  {
  }

  // ----- The one-column program --------------------------------------------------------------------------

  newtype uint32 = x: int | 0 <= x < 0x1_0000_0000

  /** The `int` a score is returned in. */
  const INT_MAX := 0x7FFF_FFFF

  ghost function Cell(s1: string, s2: string, x: nat, y: nat): nat
    requires x <= |s2| && y <= |s1|
  {
    Distance(s1[..y], s2[..x])
  }

  lemma CellStep(s1: string, s2: string, x: nat, y: nat)
    requires 0 < x <= |s2| && 0 < y <= |s1|
    ensures Cell(s1, s2, x, y) ==
            Min3(Cell(s1, s2, x - 1, y) + 1, Cell(s1, s2, x, y - 1) + 1,
                 Cell(s1, s2, x - 1, y - 1) + (if s1[y - 1] == s2[x - 1] then 0 else 1))
  {
    assert Front(s1[..y]) == s1[..y - 1] && Front(s2[..x]) == s2[..x - 1];
  }

  lemma CellBorder(s1: string, s2: string)
    ensures forall y :: 0 <= y <= |s1| ==> Cell(s1, s2, 0, y) == y
    ensures forall x :: 0 <= x <= |s2| ==> Cell(s1, s2, x, 0) == x
  {
  }

  lemma CellBound(s1: string, s2: string, x: nat, y: nat)
    requires x <= |s2| && y <= |s1|
    requires |s1| < INT_MAX && |s2| < INT_MAX
    ensures Cell(s1, s2, x, y) < INT_MAX
  {
    LengthBounds(s1[..y], s2[..x]);
  }

  /** One step of the inner loop: an entry of the next column from the three entries around it. */
  method NextEntry(s1: string, s2: string, x: uint32, y: uint32, above: uint32, left: uint32, diag: uint32)
    returns (entry: uint32)
    requires |s1| < INT_MAX && |s2| < INT_MAX
    requires 0 < x as int <= |s2| && 0 < y as int <= |s1|
    requires left as int == Cell(s1, s2, x as int - 1, y as int)
    requires above as int == Cell(s1, s2, x as int, y as int - 1)
    requires diag as int == Cell(s1, s2, x as int - 1, y as int - 1)
    ensures entry as int == Cell(s1, s2, x as int, y as int)
  {
    hide Cell;
    CellStep(s1, s2, x as int, y as int);
    CellBound(s1, s2, x as int - 1, y as int);
    CellBound(s1, s2, x as int, y as int - 1);
    CellBound(s1, s2, x as int - 1, y as int - 1);
    entry := Min3((left + 1) as int, (above + 1) as int,
                  (diag + (if s1[y - 1] == s2[x - 1] then 0 else 1)) as int) as uint32;
  }

  /**
   The edit distance with one column of the table, overwritten in place. `lastDiag` carries the entry the
   previous row overwrote. Two empty texts would read an entry that is never set.
   */
  method CalcLevenshtein(s1: string, s2: string) returns (score: int)
    requires |s1| < INT_MAX && |s2| < INT_MAX
    requires s1 != "" || s2 != ""
    ensures score == Distance(s1, s2)
  {
    hide Cell, Distance;
    var len1, len2 := |s1| as uint32, |s2| as uint32;
    var column := new uint32[|s1| + 1];
    CellBorder(s1, s2);
    var y: uint32 := 1;
    while y <= len1
      invariant 1 <= y <= len1 + 1
      invariant forall k :: 1 <= k < y ==> column[k] == k
    {
      column[y] := y;
      y := y + 1;
    }
    var x: uint32 := 1;
    while x <= len2
      invariant 1 <= x <= len2 + 1
      invariant forall k :: 1 <= k <= |s1| ==> column[k] as int == Cell(s1, s2, x as int - 1, k)
      invariant x > 1 ==> column[0] as int == Cell(s1, s2, x as int - 1, 0)
    {
      column[0] := x;
      y := 1;
      var lastDiag := x - 1;
      while y <= len1
        invariant 1 <= y <= len1 + 1
        invariant forall k :: 0 <= k < y as int ==> column[k] as int == Cell(s1, s2, x as int, k)
        invariant forall k :: y as int <= k <= |s1| ==> column[k] as int == Cell(s1, s2, x as int - 1, k)
        invariant lastDiag as int == Cell(s1, s2, x as int - 1, y as int - 1)
      {
        var oldDiag := column[y];
        column[y] := NextEntry(s1, s2, x, y, column[y - 1], column[y], lastDiag);
        lastDiag := oldDiag;
        y := y + 1;
      }
      x := x + 1;
    }
    CellIsDistance(s1, s2);
    score := column[len1] as int;
  }

  lemma CellIsDistance(s1: string, s2: string)
    ensures Cell(s1, s2, |s2|, |s1|) == Distance(s1, s2)
  {
    assert s1[..|s1|] == s1 && s2[..|s2|] == s2;
  }
}
