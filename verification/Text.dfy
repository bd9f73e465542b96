/**
 Words and phrases as the anagram finder sees them: null-terminated text, the multiset of letters in a text
 (spaces carry no weight), lower-casing, and the lexicographic order of `std::map` keys.
 */
module Text {

  /** Every character is one a C string can hold, byte 255 left out: inserting that one never ends. */
  predicate IsBytes(s: string) {
    forall k :: 0 <= k < |s| ==> 0 < s[k] as int < 255
  }

  /** 7-bit text, whose letters can be counted. */
  predicate IsText(s: string) {
    forall k :: 0 <= k < |s| ==> 0 < s[k] as int < 128
  }

  /** Texts shorter than this have scores that still fit an `int` when shifted left by 12 bits. */
  const MAX_TEXT := 0x8_0000

  /** A dictionary word: non-empty text without a space. */
  predicate IsWord(s: string) {
    IsText(s) && 0 < |s| < 0x8_0000 && ' ' !in s
  }

  /** The letters of a text with their multiplicities; spaces are skipped. */
  function Letters(s: string): multiset<char> {
    multiset(s)[' ' := 0]
  }

  lemma NoLetters()
    ensures Letters("") == multiset{}
  {
  }

  lemma LettersConcat(s: string, t: string)
    ensures Letters(s + t) == Letters(s) + Letters(t)
  {
  }

  lemma LettersOfPrefix(s: string, i: nat)
    requires i < |s|
    ensures Letters(s[..i + 1]) == Letters(s[..i]) + (if s[i] == ' ' then multiset{} else multiset{s[i]})
  {
    assert s[..i + 1] == s[..i] + [s[i]];
    LettersConcat(s[..i], [s[i]]);
  }

  lemma LettersOfPart(s: string, i: nat)
    requires i <= |s|
    ensures Letters(s[..i]) <= Letters(s)
  {
    assert s == s[..i] + s[i..];
    LettersConcat(s[..i], s[i..]);
  }

  lemma LettersOfWord(w: string)
    requires IsWord(w)
    ensures Letters(w) == multiset(w) && |Letters(w)| == |w| && w[0] in Letters(w)
  {
  }

  /** The distinct letters of a multiset. */
  ghost function Distinct(m: multiset<char>): set<char> {
    set ch | ch in m
  }

  lemma DistinctMonotone(m: multiset<char>, n: multiset<char>)
    requires m <= n
    ensures |Distinct(m)| <= |Distinct(n)|
  {
    SubsetSize(Distinct(m), Distinct(n));
  }

  lemma {:induction false} SubsetSize<T>(a: set<T>, b: set<T>)
    requires a <= b
    ensures |a| <= |b|
  {
    if x :| x in a {
      SubsetSize(a - {x}, b - {x});
    }
  }

  // ----- Lower-casing ------------------------------------------------------------------------------------

  /** `tolower` in the C locale; a byte above 127 stays as it is. */
  function LowerChar(c: char): char {
    if 'A' <= c <= 'Z' then c + 32 as char else c
  }

  /**
   What `tolower` makes of a `char` in a comparison. A byte above 127 arrives as a negative number, which is
   taken for its unsigned byte; but byte 255 arrives as -1, which is `EOF` and stays -1.
   */
  function Compared(c: char): int {
    if c as int == 255 then -1 else LowerChar(c) as int
  }

  /** The compared value of a byte is the key of a new node for it exactly if the byte is not 255. */
  lemma ComparedIsKeyIff(c: char)
    requires 0 < c as int < 256
    ensures Compared(c) == LowerChar(c) as int <==> c as int != 255
    ensures Compared(c) <= LowerChar(c) as int
  {
  }

  /** Folds every character of `s` to lower case. */
  function Lower(s: string): (r: string)
    ensures |r| == |s|
  {
    seq(|s|, i requires 0 <= i < |s| => LowerChar(s[i]))
  }

  const CAPITALS := "ABCDEFGHIJKLMNOPQRSTUVWXYZ"
  const SMALL_LETTERS := "abcdefghijklmnopqrstuvwxyz"

  predicate NoCapitals(s: string) {
    forall k :: 0 <= k < |s| ==> s[k] !in CAPITALS
  }

  /** `d` is the small letter of the capital `c`, or `c` itself when it is not a capital. */
  ghost predicate Folds(c: char, d: char) {
    if c in CAPITALS then exists i :: 0 <= i < 26 && c == CAPITALS[i] && d == SMALL_LETTERS[i] else d == c
  }

  /** `r` is `s` with every capital replaced by its small letter. */
  ghost predicate FoldsTo(s: string, r: string) {
    |s| == |r| && forall k :: 0 <= k < |s| ==> Folds(s[k], r[k])
  }

  lemma AlphabetAt(i: nat)
    requires i < 26
    ensures CAPITALS[i] as int == 65 + i && SMALL_LETTERS[i] as int == 97 + i
  {
  }

  lemma CapitalsAreAToZ(c: char)
    ensures c in CAPITALS <==> 'A' <= c <= 'Z'
  {
    forall i: nat | i < 26 {
      AlphabetAt(i);
    }
    hide CAPITALS, SMALL_LETTERS;
    assert |CAPITALS| == 26;
    if 'A' <= c <= 'Z' {
      assert CAPITALS[c as int - 65] == c;
    }
  }

  lemma LowerCharFolds(c: char, d: char)
    ensures Folds(c, d) <==> d == LowerChar(c)
    ensures LowerChar(c) !in CAPITALS
  {
    CapitalsAreAToZ(c);
    CapitalsAreAToZ(LowerChar(c));
    forall i: nat | i < 26 {
      AlphabetAt(i);
    }
    hide CAPITALS, SMALL_LETTERS;
    if 'A' <= c <= 'Z' && d == LowerChar(c) {
      var i := c as int - 65;
      assert c == CAPITALS[i] && d == SMALL_LETTERS[i];
    }
  }

  /** Lower-casing replaces exactly the 26 capitals by their small letters, and leaves none. */
  lemma LowerFolds(s: string, r: string)
    ensures FoldsTo(s, r) <==> r == Lower(s)
    ensures NoCapitals(Lower(s))
  {
    hide Folds, LowerChar;
    forall k | 0 <= k < |s|
      ensures Lower(s)[k] !in CAPITALS && Folds(s[k], Lower(s)[k])
    {
      LowerCharFolds(s[k], Lower(s)[k]);
    }
    if FoldsTo(s, r) {
      forall k | 0 <= k < |s|
        ensures r[k] == Lower(s)[k]
      {
        LowerCharFolds(s[k], r[k]);
      }
    }
  }

  lemma LowerKeepsWord(s: string)
    requires IsWord(s)
    ensures IsWord(Lower(s))
  {
  }

  /** 65 letters that `tolower` leaves as they are. */
  function Symbol(i: nat): (c: char)
    requires i < 65
    ensures c != ' ' && 32 < c as int < 128 && LowerChar(c) == c
  {
    if i < 32 then (33 + i) as char else (59 + i) as char
  }

  lemma SymbolsDiffer(i: nat, j: nat)
    requires i < 65 && j < 65
    ensures Symbol(i) == Symbol(j) <==> i == j
    ensures Symbol(i) < Symbol(j) <==> i < j
  {
  }

  // ----- The order of map keys ---------------------------------------------------------------------------

  /** Lexicographic order, the order in which a `std::map` with string keys is iterated. */
  predicate Less(a: string, b: string) {
    b != "" && (a == "" || a[0] < b[0] || (a[0] == b[0] && Less(a[1..], b[1..])))
  }

  /** `a` and `b` agree on the first `k` characters, where `a` ends or has the smaller character. */
  ghost predicate DifferAt(a: string, b: string, k: nat) {
    k <= |a| && k < |b| && a[..k] == b[..k] && (k == |a| || a[k] < b[k])
  }

  ghost predicate Precedes(a: string, b: string) {
    exists k :: DifferAt(a, b, k)
  }

  /** The order is the lexicographic one: a beginning of a text comes before the text. */
  lemma {:induction false} LessIsPrecedes(a: string, b: string)
    ensures Less(a, b) <==> Precedes(a, b)
    decreases |a|
  {
    if b == "" {
    } else if a == "" {
      assert DifferAt(a, b, 0);
    } else if a[0] != b[0] {
      if a[0] < b[0] {
        assert DifferAt(a, b, 0);
      }
      forall k | 0 < k <= |a| && k < |b|
        ensures a[..k] != b[..k]
      {
        assert a[..k][0] == a[0] && b[..k][0] == b[0];
      }
    } else {
      LessIsPrecedes(a[1..], b[1..]);
      if k: nat :| DifferAt(a[1..], b[1..], k) {
        assert a[..k + 1] == [a[0]] + a[1..][..k] && b[..k + 1] == [b[0]] + b[1..][..k];
        assert DifferAt(a, b, k + 1);
      }
      if k: nat :| DifferAt(a, b, k) {
        assert a[1..][..k - 1] == a[..k][1..] && b[1..][..k - 1] == b[..k][1..];
        assert DifferAt(a[1..], b[1..], k - 1);
      }
    }
  }

  lemma {:induction false} LessIrreflexive(a: string)
    ensures !Less(a, a)
  {
    if a != "" {
      LessIrreflexive(a[1..]);
    }
  }

  lemma {:induction false} LessTransitive(a: string, b: string, c: string)
    requires Less(a, b) && Less(b, c)
    ensures Less(a, c)
  {
    if a != "" && a[0] == b[0] == c[0] {
      LessTransitive(a[1..], b[1..], c[1..]);
    }
  }

  lemma {:induction false} LessTotal(a: string, b: string)
    ensures Less(a, b) || a == b || Less(b, a)
  {
    if a != "" && b != "" && a[0] == b[0] {
      LessTotal(a[1..], b[1..]);
      assert a == [a[0]] + a[1..] && b == [b[0]] + b[1..];
    }
  }

  ghost predicate StrictlySorted(keys: seq<string>) {
    forall i, j :: 0 <= i < j < |keys| ==> Less(keys[i], keys[j])
  }

  lemma SortedPrecede(keys: seq<string>)
    ensures StrictlySorted(keys) <==> forall i, j :: 0 <= i < j < |keys| ==> Precedes(keys[i], keys[j])
  {
    forall i, j | 0 <= i < j < |keys|
      ensures Less(keys[i], keys[j]) <==> Precedes(keys[i], keys[j])
    {
      LessIsPrecedes(keys[i], keys[j]);
    }
  }

  /** A strictly sorted list never repeats a key, and its positions follow the key order. */
  lemma SortedPositions(keys: seq<string>, i: nat, j: nat)
    requires StrictlySorted(keys) && i < |keys| && j < |keys|
    ensures keys[i] == keys[j] <==> i == j
    ensures Less(keys[i], keys[j]) <==> i < j
  {
    LessIrreflexive(keys[i]);
    if j < i && Less(keys[i], keys[j]) {
      LessTransitive(keys[i], keys[j], keys[i]);
    }
  }

  // ----- Phrases -----------------------------------------------------------------------------------------

  /** The words of a phrase separated by single spaces. */
  function Join(ws: seq<string>): string {
    if ws == [] then ""
    else
      var n := |ws| - 1;
      if n == 0 then ws[0] else Join(ws[..n]) + " " + ws[n]
  }

  /** The letters of all words of a phrase. */
  ghost function AllLetters(ws: seq<string>): multiset<char> {
    if ws == [] then multiset{}
    else
      var n := |ws| - 1;
      AllLetters(ws[..n]) + Letters(ws[n])
  }

  lemma JoinThree(u: string, v: string, w: string)
    ensures Join([u, v, w]) == u + " " + v + " " + w
    ensures AllLetters([u, v, w]) == Letters(u) + Letters(v) + Letters(w)
  {
    var one, two, three := [u], [u, v], [u, v, w];
    assert three[..2] == two && two[..1] == one && one[..0] == [];
    assert Join(two) == Join(one) + " " + v;
    assert AllLetters(two) == AllLetters(one) + Letters(v);
  }

  lemma {:induction false} LettersOfJoin(ws: seq<string>)
    ensures Letters(Join(ws)) == AllLetters(ws)
    decreases |ws|
  {
    var n := |ws| - 1;
    if ws == [] {
      assert Letters("") == multiset{};
    } else if n > 0 {
      LettersOfJoin(ws[..n]);
      LettersConcat(Join(ws[..n]) + " ", ws[n]);
      LettersConcat(Join(ws[..n]), " ");
      assert Letters(" ") == multiset{};
    } else {
      assert AllLetters(ws[..0]) == multiset{};
    }
  }

  lemma LettersSize(w: string)
    requires ' ' !in w
    ensures Letters(w) == multiset(w) && |Letters(w)| == |w|
  {
    assert multiset(w)[' '] == 0;
  }

  /** A phrase has at most as many spaces as letters, less one. */
  lemma {:induction false} JoinLength(ws: seq<string>)
    requires ws != [] && forall k :: 0 <= k < |ws| ==> ws[k] != "" && ' ' !in ws[k]
    ensures |Join(ws)| + 1 <= 2 * |AllLetters(ws)|
    decreases |ws|
  {
    var n := |ws| - 1;
    LettersSize(ws[n]);
    assert AllLetters(ws) == AllLetters(ws[..n]) + Letters(ws[n]);
    hide Letters;
    if n > 0 {
      JoinLength(ws[..n]);
    } else {
      assert AllLetters(ws[..0]) == multiset{};
    }
  }

  lemma {:induction false} JoinIsText(ws: seq<string>)
    requires forall k :: 0 <= k < |ws| ==> IsText(ws[k])
    ensures IsText(Join(ws))
    decreases |ws|
  {
    if |ws| > 1 {
      JoinIsText(ws[..|ws| - 1]);
    }
  }

  /** A phrase tells its words: they contain no spaces. */
  lemma {:induction false} JoinInjective(v: seq<string>, w: seq<string>)
    requires v != [] && forall k :: 0 <= k < |v| ==> ' ' !in v[k]
    requires w != [] && forall k :: 0 <= k < |w| ==> ' ' !in w[k]
    requires Join(v) == Join(w)
    ensures v == w
    decreases |v|
  {
    var m, n := |v| - 1, |w| - 1;
    if m > 0 {
      JoinHasSpace(v);
    }
    if n > 0 {
      JoinHasSpace(w);
    }
    if m > 0 && n > 0 {
      LastWord(Join(v[..m]), v[m], Join(w[..n]), w[n]);
      JoinInjective(v[..m], w[..n]);
      assert v == v[..m] + [v[m]] && w == w[..n] + [w[n]];
    }
  }

  lemma JoinHasSpace(ws: seq<string>)
    requires |ws| > 1
    ensures ' ' in Join(ws)
  {
  }

  /** The parts of a text between its spaces, read from left to right. */
  function Split(s: string): (ws: seq<string>)
    ensures ws != []
  {
    if s == "" then [""]
    else
      var rest := Split(s[1..]);
      if s[0] == ' ' then [""] + rest else [[s[0]] + rest[0]] + rest[1..]
  }

  lemma {:induction false} SplitWord(w: string, s: string)
    requires ' ' !in w
    ensures Split(w + " " + s) == [w] + Split(s)
    decreases |w|
  {
    if w == "" {
      assert (w + " " + s)[1..] == s;
    } else {
      assert (w + " " + s)[1..] == w[1..] + " " + s;
      SplitWord(w[1..], s);
      assert w == [w[0]] + w[1..];
    }
  }

  lemma {:induction false} SplitOne(w: string)
    requires ' ' !in w
    ensures Split(w) == [w]
    decreases |w|
  {
    if w != "" {
      SplitOne(w[1..]);
      assert w == [w[0]] + w[1..];
    }
  }

  /** Joining from the left is joining from the right. */
  lemma {:induction false} JoinFromLeft(ws: seq<string>)
    requires |ws| > 1
    ensures Join(ws) == ws[0] + " " + Join(ws[1..])
    decreases |ws|
  {
    var n := |ws| - 1;
    if n > 1 {
      JoinFromLeft(ws[..n]);
      assert ws[..n][1..] == ws[1..][..n - 1];
    } else {
      assert ws[..n] == [ws[0]] && ws[1..] == [ws[1]];
    }
  }

  /** A phrase, split at its spaces, is its words in order. */
  lemma {:induction false} SplitJoin(ws: seq<string>)
    requires ws != [] && forall k :: 0 <= k < |ws| ==> ' ' !in ws[k]
    ensures Split(Join(ws)) == ws
    decreases |ws|
  {
    if |ws| == 1 {
      SplitOne(ws[0]);
    } else {
      JoinFromLeft(ws);
      SplitWord(ws[0], Join(ws[1..]));
      SplitJoin(ws[1..]);
      assert ws == [ws[0]] + ws[1..];
    }
  }

  lemma JoinHead(x: string, ws: seq<string>)
    requires ws != []
    ensures Join([x + ws[0]] + ws[1..]) == x + Join(ws)
  {
    var vs := [x + ws[0]] + ws[1..];
    if |ws| == 1 {
      assert vs == [x + ws[0]];
    } else {
      hide Join;
      JoinFromLeft(ws);
      JoinFromLeft(vs);
      assert vs[1..] == ws[1..] && vs[0] == x + ws[0];
      Prepend(x, ws[0], Join(ws[1..]));
    }
  }

  lemma Prepend(x: string, v: string, s: string)
    ensures x + v + " " + s == x + (v + " " + s)
  {
  }

  /** And the parts of a text, joined, are the text. */
  lemma {:induction false} JoinSplit(s: string)
    ensures Join(Split(s)) == s
    decreases |s|
  {
    if s != "" {
      var rest := Split(s[1..]);
      JoinSplit(s[1..]);
      if s[0] == ' ' {
        JoinFromLeft([""] + rest);
        assert ([""] + rest)[1..] == rest;
        assert s == "" + " " + s[1..];
      } else {
        JoinHead([s[0]], rest);
      }
    }
  }

  lemma LastWord(h: string, v: string, k: string, w: string)
    requires ' ' !in v && ' ' !in w && h + " " + v == k + " " + w
    ensures h == k && v == w
  {
    var s := h + " " + v;
    LastSpace(h, v);
    LastSpace(k, w);
    assert |h| == |k|;
    assert h == s[..|h|] && k == s[..|k|];
    assert v == s[|h| + 1..] && w == s[|k| + 1..];
  }

  lemma LastSpace(h: string, v: string)
    requires ' ' !in v
    ensures var s := h + " " + v;
            s[|h|] == ' ' && forall i :: |h| < i < |s| ==> s[i] != ' '
  {
  }
}
