/** Bracket nesting of a BrainFuck instruction string, stated independently of
    the translator: the nesting level of a span, balanced spans, and the
    matching `]` of a `[`. */
module Brackets {

  /** How a character changes the nesting level. */
  function Delta(c: char): int
  {
    if c == '[' then 1 else if c == ']' then -1 else 0
  }

  /** Nesting level reached after reading `code[i..j]` from level zero. */
  function Level(code: seq<char>, i: nat, j: nat): int
    requires i <= j <= |code|
    decreases j - i
  {
    if i == j then 0 else Delta(code[i]) + Level(code, i + 1, j)
  }

  /** No prefix of `code[i..m]` closes more brackets than it opens. */
  predicate NeverBelowZero(code: seq<char>, i: nat, m: nat)
    requires i <= m <= |code|
  {
    forall k :: i <= k <= m ==> Level(code, i, k) >= 0
  }

  /** `code[i..m]` is a well-nested bracket span. */
  predicate BalancedSpan(code: seq<char>, i: nat, m: nat)
    requires i <= m <= |code|
  {
    NeverBelowZero(code, i, m) && Level(code, i, m) == 0
  }

  /** A whole program with every `[` matched by a later `]` and vice versa. */
  predicate Balanced(code: seq<char>)
  {
    BalancedSpan(code, 0, |code|)
  }

  /** Levels add up along consecutive spans. */
  lemma {:induction false} LevelSplit(code: seq<char>, i: nat, l: nat, j: nat)
    requires i <= l <= j <= |code|
    ensures Level(code, i, j) == Level(code, i, l) + Level(code, l, j)
    decreases l - i
  {
    if i < l {
      LevelSplit(code, i + 1, l, j);
    }
  }

  /** The level of a span depends only on the characters in it. */
  lemma {:induction false} LevelSlice(code: seq<char>, a: nat, b: nat, i: nat, j: nat)
    requires a <= b <= |code| && i <= j <= b - a
    ensures Level(code[a..b], i, j) == Level(code, a + i, a + j)
    decreases j - i
  {
    if i < j {
      LevelSlice(code, a, b, i + 1, j);
    }
  }

  lemma NeverBelowZeroSlice(code: seq<char>, a: nat, b: nat, i: nat, j: nat)
    requires a <= b <= |code| && i <= j <= b - a
    ensures NeverBelowZero(code[a..b], i, j) <==> NeverBelowZero(code, a + i, a + j)
  {
    forall k | i <= k <= j
      ensures Level(code[a..b], i, k) == Level(code, a + i, a + k)
    {
      LevelSlice(code, a, b, i, k);
    }
    if NeverBelowZero(code, a + i, a + j) {
      forall k | i <= k <= j ensures Level(code[a..b], i, k) >= 0 {
        assert Level(code, a + i, a + k) >= 0;
      }
    } else {
      var k' :| a + i <= k' <= a + j && Level(code, a + i, k') < 0;
      assert Level(code[a..b], i, k' - a) < 0;
    }
  }

  /** A span whose level never drops below zero, cut at a point where the
      level is back at zero, continues from zero on the far side. */
  lemma NeverBelowZeroAfter(code: seq<char>, i: nat, l: nat, m: nat)
    requires i <= l <= m <= |code|
    requires NeverBelowZero(code, i, m) && Level(code, i, l) == 0
    ensures NeverBelowZero(code, l, m)
    ensures Level(code, l, m) == Level(code, i, m)
  {
    forall k | l <= k <= m ensures Level(code, l, k) >= 0 {
      LevelSplit(code, i, l, k);
    }
    LevelSplit(code, i, l, m);
  }

  /** Where the `[` at `i` is closed, inside a span that is not yet exhausted:
      either the first `]` that brings the level back to zero, or nothing
      before `m`, in which case everything after the `[` stays at level zero
      or above. */
  lemma {:induction false} OpenBracketSplit(code: seq<char>, i: nat, m: nat) returns (found: bool, p: nat)
    requires i < m <= |code| && code[i] == '['
    requires NeverBelowZero(code, i, m)
    ensures found ==> i < p < m && code[p] == ']'
    ensures found ==> BalancedSpan(code, i + 1, p)
    ensures found ==> NeverBelowZero(code, p + 1, m) && Level(code, p + 1, m) == Level(code, i, m)
    ensures !found ==> NeverBelowZero(code, i + 1, m) && Level(code, i, m) == 1 + Level(code, i + 1, m)
    ensures Level(code, i, m) == 0 ==> found
  {
    assert Level(code, i, i + 1) == 1 by { assert Level(code, i + 1, i + 1) == 0; }
    var q := i + 1;
    while q <= m && Level(code, i, q) != 0
      invariant i + 1 <= q <= m + 1
      invariant forall k :: i < k < q ==> Level(code, i, k) > 0
      decreases m + 1 - q
    {
      q := q + 1;
    }
    LevelSplit(code, i, i + 1, m);
    if q <= m {
      found, p := true, q - 1;
      LevelSplit(code, i, p, q);
      assert Level(code, p, q) == Delta(code[p]) by { assert Level(code, q, q) == 0; }
      assert Level(code, i, p) > 0;
      assert code[p] == ']';
      var j := i + 1;
      forall k | j <= k <= p ensures Level(code, j, k) >= 0 {
        LevelSplit(code, i, i + 1, k);
      }
      LevelSplit(code, i, i + 1, p);
      NeverBelowZeroAfter(code, i, q, m);
    } else {
      found, p := false, 0;
      var j := i + 1;
      forall k | j <= k <= m ensures Level(code, j, k) >= 0 {
        LevelSplit(code, i, i + 1, k);
      }
    }
  }

  /** The bracket characters of a span, in order: the nesting skeleton. */
  function BracketsOf(s: seq<char>): (r: seq<char>)
    ensures |r| <= |s|
    ensures forall k :: 0 <= k < |r| ==> r[k] == '[' || r[k] == ']'
  {
    if s == [] then []
    else (if s[0] == '[' || s[0] == ']' then [s[0]] else []) + BracketsOf(s[1..])
  }

  /** Two well-nested strings in a row are well nested. */
  lemma BalancedConcat(a: seq<char>, b: seq<char>)
    requires Balanced(a) && Balanced(b)
    ensures Balanced(a + b)
  {
    var ab := a + b;
    assert ab[0..|a|] == a;
    assert ab[|a|..|ab|] == b;
    forall k | 0 <= k <= |ab| ensures Level(ab, 0, k) >= 0 {
      if k <= |a| {
        LevelSlice(ab, 0, |a|, 0, k);
      } else {
        LevelSplit(ab, 0, |a|, k);
        LevelSlice(ab, 0, |a|, 0, |a|);
        LevelSlice(ab, |a|, |ab|, 0, k - |a|);
      }
    }
    LevelSplit(ab, 0, |a|, |ab|);
    LevelSlice(ab, 0, |a|, 0, |a|);
    LevelSlice(ab, |a|, |ab|, 0, |b|);
  }

  /** A well-nested string inside one more pair of brackets is well nested. */
  lemma BalancedWrap(s: seq<char>)
    requires Balanced(s)
    ensures Balanced("[" + s + "]")
  {
    var w := "[" + s + "]";
    assert w[1..|s| + 1] == s;
    forall k | 1 <= k <= |s| + 1 ensures Level(w, 0, k) == 1 + Level(s, 0, k - 1) {
      LevelSplit(w, 0, 1, k);
      LevelSlice(w, 1, |s| + 1, 0, k - 1);
    }
    forall k | 0 <= k <= |w| ensures Level(w, 0, k) >= 0 {
      if k == |w| {
        LevelSplit(w, 0, |s| + 1, |w|);
      }
    }
    LevelSplit(w, 0, |s| + 1, |w|);
  }

  /** A span without bracket characters leaves the level unchanged. */
  lemma {:induction false} LevelWithoutBrackets(code: seq<char>, i: nat, j: nat)
    requires i <= j <= |code|
    requires forall k :: i <= k < j ==> code[k] != '[' && code[k] != ']'
    ensures Level(code, i, j) == 0
    decreases j - i
  {
    if i < j {
      LevelWithoutBrackets(code, i + 1, j);
    }
  }

  lemma {:induction false} BracketsOfAppend(a: seq<char>, b: seq<char>)
    ensures BracketsOf(a + b) == BracketsOf(a) + BracketsOf(b)
    decreases a
  {
    if a == [] {
      assert a + b == b;
    } else {
      assert (a + b)[0] == a[0] && (a + b)[1..] == a[1..] + b;
      BracketsOfAppend(a[1..], b);
    }
  }

  /** Characters other than brackets do not appear in the skeleton. */
  lemma {:induction false} BracketsOfSkip(code: seq<char>, i: nat, j: nat, m: nat)
    requires i <= j <= m <= |code|
    requires forall k :: i <= k < j ==> code[k] != '[' && code[k] != ']'
    ensures BracketsOf(code[i..m]) == BracketsOf(code[j..m])
    decreases j - i
  {
    if i < j {
      assert code[i..m][0] == code[i] && code[i..m][1..] == code[i + 1..m];
      BracketsOfSkip(code, i + 1, j, m);
    }
  }

  lemma BracketsOfSplit(code: seq<char>, i: nat, l: nat, m: nat)
    requires i <= l <= m <= |code|
    ensures BracketsOf(code[i..m]) == BracketsOf(code[i..l]) + BracketsOf(code[l..m])
  {
    assert code[i..m] == code[i..l] + code[l..m];
    BracketsOfAppend(code[i..l], code[l..m]);
  }

  lemma BracketsOfBracket(code: seq<char>, i: nat, m: nat)
    requires i < m <= |code| && (code[i] == '[' || code[i] == ']')
    ensures BracketsOf(code[i..m]) == [code[i]] + BracketsOf(code[i + 1..m])
  {
    assert code[i..m][0] == code[i] && code[i..m][1..] == code[i + 1..m];
  }

  /** The skeleton of a span that starts with a `[` closed at `p`. */
  lemma BracketsOfLoop(code: seq<char>, i: nat, p: nat, m: nat)
    requires i < p < m <= |code| && code[i] == '[' && code[p] == ']'
    ensures BracketsOf(code[i..m]) == "[" + (BracketsOf(code[i + 1..p]) + ("]" + BracketsOf(code[p + 1..m])))
  {
    var inner := BracketsOf(code[i + 1..p]);
    var after := BracketsOf(code[p + 1..m]);
    assert BracketsOf(code[i..m]) == "[" + BracketsOf(code[i + 1..m]) by {
      BracketsOfBracket(code, i, m);
    }
    assert BracketsOf(code[i + 1..m]) == inner + BracketsOf(code[p..m]) by {
      BracketsOfSplit(code, i + 1, p, m);
    }
    assert BracketsOf(code[p..m]) == "]" + after by {
      BracketsOfBracket(code, p, m);
    }
  }
}
