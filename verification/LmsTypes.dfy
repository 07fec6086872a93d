/** The S/L classification of text positions, leftmost-S ("LMS") positions, and the
    two orders that induced sorting works with. */
module LmsTypes {
  import opened Suffixes

  /** Position `i` is of type S: its suffix is smaller than the next one.
      The sentinel position `|t|` is of type S, the last real position of type L. */
  ghost predicate IsS(t: seq<int>, i: nat)
    requires i <= |t|
    decreases |t| - i
  {
    i == |t| || (i + 1 < |t| && (t[i] < t[i + 1] || (t[i] == t[i + 1] && IsS(t, i + 1))))
  }

  /** `j` is the start of an LMS-substring. */
  ghost predicate IsLms(t: seq<int>, j: int)
  {
    0 < j < |t| && IsS(t, j) && !IsS(t, j - 1)
  }

  /** The LMS positions from `i` on, in text order. */
  ghost function LmsFrom(t: seq<int>, i: nat): (r: seq<int>)
    ensures forall j :: j in r <==> IsLms(t, j) && i <= j
    ensures forall a, b :: 0 <= a < b < |r| ==> r[a] < r[b]
    decreases |t| - i
  {
    if |t| <= i then []
    else
      var rest := LmsFrom(t, i + 1);
      Above(rest, i);
      if IsLms(t, i) then [i] + rest else rest
  }

  lemma Above(r: seq<int>, i: int)
    ensures (forall j :: j in r ==> i < j) ==> forall b :: 0 <= b < |r| ==> i < r[b]
  {
    forall b | 0 <= b < |r| ensures r[b] in r { }
  }

  lemma LmsEnds(t: seq<int>)
    ensures LmsFrom(t, 0) == LmsFrom(t, 1) && LmsFrom(t, |t| + 1) == []
  {
  }

  /** What the backward scan over the text keeps track of: the type of the position just
      read, and whether the one before it starts an LMS-substring. */
  lemma TypeStep(t: seq<int>, textMax: nat, i: nat, c1: int, isTypeS: bool)
    requires Symbols(t, textMax) && i < |t|
    requires c1 == (if i + 1 < |t| then t[i + 1] else 0) && isTypeS == (i + 1 < |t| && IsS(t, i + 1))
    ensures IsLms(t, i + 1) <==> t[i] > c1 && isTypeS
    ensures IsS(t, i) <==> t[i] < c1 || (t[i] == c1 && isTypeS)
    ensures IsLms(t, i + 1) ==> LmsFrom(t, i + 1) == [i + 1] + LmsFrom(t, i + 2)
    ensures !IsLms(t, i + 1) ==> LmsFrom(t, i + 1) == LmsFrom(t, i + 2)
  {
  }

  ghost predicate Symbols(t: seq<int>, textMax: nat)
  {
    forall i :: 0 <= i < |t| ==> 0 <= t[i] < textMax
  }

  /** The bucket half of a position: L-positions of a symbol come before S-positions. */
  ghost function Head(t: seq<int>, i: nat): int
    requires i <= |t|
  {
    if i == |t| then -1 else 2 * t[i] + (if IsS(t, i) then 1 else 0)
  }

  /** The order the left-to-right scan sorts by: the symbols and types from `i` on, up to
      the next LMS position, where the given rank `rk` of that position decides. */
  ghost predicate LLess(t: seq<int>, rk: seq<int>, i: nat, j: nat)
    requires i <= |t| && j <= |t| && |rk| == |t|
    decreases |t| - i
  {
    if Head(t, i) != Head(t, j) then Head(t, i) < Head(t, j)
    else if i == |t| || j == |t| then false
    else if IsS(t, i) then rk[i] < rk[j]
    else LLess(t, rk, i + 1, j + 1)
  }

  /** The order the right-to-left scan sorts by: as `LLess`, but an S-position is
      compared through the S-positions that follow it. */
  ghost predicate SLess(t: seq<int>, rk: seq<int>, i: nat, j: nat)
    requires i <= |t| && j <= |t| && |rk| == |t|
    decreases |t| - i
  {
    if Head(t, i) != Head(t, j) then Head(t, i) < Head(t, j)
    else if i == |t| || j == |t| then false
    else if IsS(t, i) then SLess(t, rk, i + 1, j + 1)
    else LLess(t, rk, i, j)
  }

  /** Within one symbol, an L-suffix is smaller than an S-suffix. */
  lemma {:induction false} LBeforeS(t: seq<int>, i: nat, j: nat)
    requires i < |t| && j < |t| && t[i] == t[j] && !IsS(t, i) && IsS(t, j)
    ensures Less(t, i, j)
    decreases |t| - i
  {
    if i + 1 < |t| && t[i + 1] == t[i] == t[j + 1] {
      LBeforeS(t, i + 1, j + 1);
    }
  }

  lemma HeadOrder(t: seq<int>, textMax: nat, i: nat, j: nat)
    requires i <= |t| && j <= |t| && Symbols(t, textMax) && Head(t, i) < Head(t, j)
    ensures Less(t, i, j)
  {
    if i < |t| && j < |t| && t[i] == t[j] {
      LBeforeS(t, i, j);
    }
  }

  // ----- From the induced orders to the suffix order -----

  /** Positions the left-to-right scan handles: L-positions, LMS positions, the sentinel. */
  ghost predicate IsItem(t: seq<int>, i: nat)
  {
    i <= |t| && (i == |t| || !IsS(t, i) || IsLms(t, i))
  }

  ghost predicate RankSound(t: seq<int>, rk: seq<int>)
    requires |rk| == |t|
  {
    forall a: nat, b: nat :: IsLms(t, a) && IsLms(t, b) && rk[a] < rk[b] ==> Less(t, a, b)
  }

  ghost predicate RankComplete(t: seq<int>, rk: seq<int>)
    requires |rk| == |t|
  {
    forall a: nat, b: nat :: IsLms(t, a) && IsLms(t, b) && Less(t, a, b) ==> rk[a] < rk[b]
  }

  lemma {:induction false} LLessSound(t: seq<int>, textMax: nat, rk: seq<int>, i: nat, j: nat)
    requires Symbols(t, textMax) && |rk| == |t| && RankSound(t, rk)
    requires IsItem(t, i) && IsItem(t, j) && LLess(t, rk, i, j)
    ensures Less(t, i, j)
    decreases |t| - i
  {
    if Head(t, i) != Head(t, j) {
      HeadOrder(t, textMax, i, j);
    } else if !IsS(t, i) {
      LLessSound(t, textMax, rk, i + 1, j + 1);
    }
  }

  lemma {:induction false} SLessSound(t: seq<int>, textMax: nat, rk: seq<int>, i: nat, j: nat)
    requires Symbols(t, textMax) && |rk| == |t| && RankSound(t, rk)
    requires i <= |t| && j <= |t| && SLess(t, rk, i, j)
    ensures Less(t, i, j)
    decreases |t| - i
  {
    if Head(t, i) != Head(t, j) {
      HeadOrder(t, textMax, i, j);
    } else if IsS(t, i) {
      SLessSound(t, textMax, rk, i + 1, j + 1);
    } else {
      LLessSound(t, textMax, rk, i, j);
    }
  }

  lemma {:induction false} LLessComplete(t: seq<int>, textMax: nat, rk: seq<int>, i: nat, j: nat)
    requires Symbols(t, textMax) && |rk| == |t| && RankComplete(t, rk)
    requires IsItem(t, i) && IsItem(t, j) && Less(t, i, j)
    ensures LLess(t, rk, i, j)
    decreases |t| - i
  {
    if Head(t, i) > Head(t, j) {
      HeadOrder(t, textMax, j, i);
      LessTotal(t, i, j);
    } else if Head(t, i) == Head(t, j) && i < |t| && !IsS(t, i) {
      LLessComplete(t, textMax, rk, i + 1, j + 1);
    }
  }

  /** With the true ranks of the LMS suffixes, the scans' order is the suffix order. */
  lemma {:induction false} SLessComplete(t: seq<int>, textMax: nat, rk: seq<int>, i: nat, j: nat)
    requires Symbols(t, textMax) && |rk| == |t| && RankComplete(t, rk)
    requires i <= |t| && j <= |t| && Less(t, i, j)
    ensures SLess(t, rk, i, j)
    decreases |t| - i
  {
    if Head(t, i) > Head(t, j) {
      HeadOrder(t, textMax, j, i);
      LessTotal(t, i, j);
    } else if Head(t, i) == Head(t, j) && i < |t| {
      if IsS(t, i) {
        SLessComplete(t, textMax, rk, i + 1, j + 1);
      } else {
        LLessComplete(t, textMax, rk, i, j);
      }
    }
  }

  // ----- Both orders are strict weak orders -----

  lemma {:induction false} LLessSplit(t: seq<int>, textMax: nat, rk: seq<int>, i: nat, m: nat, j: nat)
    requires Symbols(t, textMax) && i <= |t| && m <= |t| && j <= |t| && |rk| == |t| && LLess(t, rk, i, j)
    ensures LLess(t, rk, i, m) || LLess(t, rk, m, j)
    decreases |t| - i
  {
    if Head(t, i) == Head(t, m) == Head(t, j) && m < |t| && !IsS(t, i) {
      LLessSplit(t, textMax, rk, i + 1, m + 1, j + 1);
    }
  }

  lemma {:induction false} SLessSplit(t: seq<int>, textMax: nat, rk: seq<int>, i: nat, m: nat, j: nat)
    requires Symbols(t, textMax) && i <= |t| && m <= |t| && j <= |t| && |rk| == |t| && SLess(t, rk, i, j)
    ensures SLess(t, rk, i, m) || SLess(t, rk, m, j)
    decreases |t| - i
  {
    if Head(t, i) == Head(t, m) == Head(t, j) && m < |t| {
      if IsS(t, i) {
        SLessSplit(t, textMax, rk, i + 1, m + 1, j + 1);
      } else {
        LLessSplit(t, textMax, rk, i, m, j);
      }
    }
  }

  // ----- LMS-substrings -----

  /** The first LMS position after `i`, or the sentinel: where a substring starting at `i` ends. */
  ghost function NextLms(t: seq<int>, i: nat): (e: nat)
    requires i < |t|
    ensures i < e <= |t| && (e == |t| || IsLms(t, e))
    ensures forall m :: i < m < e ==> !IsLms(t, m)
    decreases |t| - i
  {
    if i + 1 == |t| || IsLms(t, i + 1) then i + 1 else NextLms(t, i + 1)
  }

  /** The LMS-substrings at `x` and `y` are the same string. The last one ends in the
      sentinel and therefore equals only itself. */
  ghost predicate SubEq(t: seq<int>, x: nat, y: nat)
    requires x < |t| && y < |t|
  {
    x == y ||
    (var e := NextLms(t, x); var f := NextLms(t, y);
     e < |t| && f < |t| && e - x == f - y && t[x..e + 1] == t[y..f + 1])
  }

  ghost function NoRanks(t: seq<int>): (rk: seq<int>)
    ensures |rk| == |t| && forall i :: 0 <= i < |t| ==> rk[i] == 0
  {
    seq(|t|, _ => 0)
  }

  /** Neither of `i`, `j` precedes the other in the order on symbols and types. */
  ghost predicate SameKey(t: seq<int>, i: nat, j: nat)
    requires i <= |t| && j <= |t|
  {
    !SLess(t, NoRanks(t), i, j) && !SLess(t, NoRanks(t), j, i)
  }

  lemma SameKeyStep(t: seq<int>, textMax: nat, i: nat, j: nat)
    requires Symbols(t, textMax) && i < |t| && j < |t| && SameKey(t, i, j)
    ensures t[i] == t[j] && (i + 1 == |t| <==> j + 1 == |t|)
    ensures IsLms(t, i + 1) == IsLms(t, j + 1)
    ensures IsLms(t, i + 1) ==> t[i + 1] == t[j + 1]
    ensures i + 1 < |t| && !IsLms(t, i + 1) ==> SameKey(t, i + 1, j + 1)
  {
    var rk := NoRanks(t);
    if !IsS(t, i) {
      assert !LLess(t, rk, i + 1, j + 1) && !LLess(t, rk, j + 1, i + 1);
    }
  }

  /** Positions with the same key run through the same symbols up to their next LMS
      position, and reach it after the same number of steps. */
  lemma {:induction false} SameKeyRun(t: seq<int>, textMax: nat, i: nat, j: nat, e: nat)
    requires Symbols(t, textMax) && i < |t| && j < |t| && SameKey(t, i, j) && e == NextLms(t, i) - i
    ensures NextLms(t, j) == j + e && (i + e == |t| <==> j + e == |t|) && t[i..i + e] == t[j..j + e]
    ensures i + e < |t| ==> t[i + e] == t[j + e]
    decreases e
  {
    hide SameKey, IsS, IsLms;
    SameKeyStep(t, textMax, i, j);
    if i + 1 < |t| && !IsLms(t, i + 1) {
      SameKeyRun(t, textMax, i + 1, j + 1, e - 1);
    }
    assert t[i..i + e] == [t[i]] + t[i + 1..i + e];
    assert t[j..j + e] == [t[j]] + t[j + 1..j + e];
  }

  /** LMS positions with the same key start equal LMS-substrings. */
  lemma SameKeyIsSubEq(t: seq<int>, textMax: nat, x: nat, y: nat)
    requires Symbols(t, textMax) && x < |t| && y < |t| && SameKey(t, x, y)
    ensures SubEq(t, x, y)
  {
    hide SameKey, IsS, IsLms, NextLms;
    var e, f := NextLms(t, x), NextLms(t, y);
    SameKeyRun(t, textMax, x, y, e - x);
    if e < |t| {
      assert t[x..e + 1] == t[x..e] + [t[e]] && t[y..f + 1] == t[y..f] + [t[f]];
    }
  }

  lemma {:induction false} LLessIrreflexive(t: seq<int>, rk: seq<int>, i: nat)
    requires i <= |t| && |rk| == |t|
    ensures !LLess(t, rk, i, i)
    decreases |t| - i
  {
    if i < |t| && !IsS(t, i) {
      LLessIrreflexive(t, rk, i + 1);
    }
  }

  lemma {:induction false} SLessIrreflexive(t: seq<int>, rk: seq<int>, i: nat)
    requires i <= |t| && |rk| == |t|
    ensures !SLess(t, rk, i, i)
    decreases |t| - i
  {
    if i < |t| {
      if IsS(t, i) {
        SLessIrreflexive(t, rk, i + 1);
      } else {
        LLessIrreflexive(t, rk, i);
      }
    }
  }

  /** Two runs of equal symbols that end in S-positions have equal types throughout. */
  lemma {:induction false} EqualRunTypes(t: seq<int>, i: nat, j: nat, e: nat)
    requires i + e < |t| && j + e < |t| && t[i..i + e + 1] == t[j..j + e + 1]
    requires IsS(t, i + e) && IsS(t, j + e)
    ensures t[i] == t[j] && IsS(t, i) == IsS(t, j)
    decreases e
  {
    assert t[i] == t[i..i + e + 1][0] == t[j..j + e + 1][0] == t[j];
    if e > 0 {
      assert t[i + 1..i + e + 1] == t[i..i + e + 1][1..] == t[j..j + e + 1][1..] == t[j + 1..j + e + 1];
      EqualRunTypes(t, i + 1, j + 1, e - 1);
    }
  }

  lemma KeyBefore(t: seq<int>, x: nat, y: nat)
    requires x + 1 < |t| && y + 1 < |t|
    requires t[x] == t[y] && IsS(t, x) == IsS(t, y)
    requires t[x + 1] == t[y + 1] && IsS(t, x + 1) == IsS(t, y + 1)
    requires (IsLms(t, x + 1) && IsLms(t, y + 1)) || SameKey(t, x + 1, y + 1)
    ensures SameKey(t, x, y)
  {
    if !IsS(t, x) {
      var rk := NoRanks(t);
      assert !LLess(t, rk, x + 1, y + 1) && !LLess(t, rk, y + 1, x + 1);
    }
  }

  /** Equal runs up to LMS positions give their starts the same key. */
  lemma {:induction false} EqualRunKey(t: seq<int>, x: nat, y: nat, e: nat)
    requires x + e < |t| && y + e < |t| && t[x..x + e + 1] == t[y..y + e + 1]
    requires 0 < e && IsLms(t, x + e) && IsLms(t, y + e)
    ensures SameKey(t, x, y)
    decreases e
  {
    hide SameKey, IsS, NextLms;
    EqualRunTypes(t, x, y, e);
    assert t[x + 1..x + e + 1] == t[x..x + e + 1][1..] == t[y..y + e + 1][1..] == t[y + 1..y + e + 1];
    EqualRunTypes(t, x + 1, y + 1, e - 1);
    if e > 1 {
      EqualRunKey(t, x + 1, y + 1, e - 1);
    }
    KeyBefore(t, x, y);
  }

  /** Equal LMS-substrings give their starts the same key. */
  lemma SubEqIsSameKey(t: seq<int>, x: nat, y: nat)
    requires x < |t| && y < |t| && SubEq(t, x, y)
    ensures SameKey(t, x, y)
  {
    if x == y {
      SLessIrreflexive(t, NoRanks(t), x);
    } else {
      EqualRunKey(t, x, y, NextLms(t, x) - x);
    }
  }
}
