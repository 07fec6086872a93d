/** LMS-substrings in sorted order, the names given to them, and the reduced text. */
module Naming {
  import opened Suffixes
  import opened LmsTypes
  import opened Buckets
  import opened Cells
  import ScanS

  // ----- The sorted list of LMS-substrings -----

  /** Substring `x` comes strictly before substring `y`. */
  ghost predicate SubLess(t: seq<int>, x: nat, y: nat)
    requires x <= |t| && y <= |t|
  {
    SLess(t, NoRanks(t), x, y)
  }

  ghost predicate AllLms(t: seq<int>, l: seq<int>)
  {
    && (forall a :: 0 <= a < |l| ==> IsLms(t, l[a]))
    && (forall j :: IsLms(t, j) ==> j in l)
    && (forall a, b :: 0 <= a < b < |l| ==> l[a] != l[b])
  }

  /** `l` lists the LMS positions by their substrings, equal ones in any order. */
  ghost predicate SortedSubs(t: seq<int>, l: seq<int>)
    ensures SortedSubs(t, l) ==> forall a :: 0 <= a < |l| ==> 0 < l[a] < |t|
  {
    AllLms(t, l) && forall a, b :: 0 <= a < b < |l| ==> !SubLess(t, l[b], l[a])
  }

  /** Two lists of the same positions have the same length. */
  lemma SameCount(t: seq<int>, l: seq<int>, m: seq<int>)
    requires AllLms(t, l) && AllLms(t, m)
    ensures |l| == |m|
  {
    DistinctSize(l);
    DistinctSize(m);
    assert (set j | j in l) == (set j | j in m);
  }

  lemma {:induction false} DistinctSize(l: seq<int>)
    requires forall a, b :: 0 <= a < b < |l| ==> l[a] != l[b]
    ensures |set j | j in l| == |l|
  {
    if l == [] {
      assert (set j | j in l) == {};
    } else {
      DistinctSize(l[1..]);
      assert l == [l[0]] + l[1..];
      assert (set j | j in l) == (set j | j in l[1..]) + {l[0]};
      assert l[0] !in l[1..];
    }
  }

  lemma LmsFromAll(t: seq<int>)
    ensures AllLms(t, LmsFrom(t, 0))
  {
    var l := LmsFrom(t, 0);
    forall a | 0 <= a < |l| ensures IsLms(t, l[a]) {
      assert l[a] in l;
    }
  }

  /** `p` and `q` may both stand in `A` when they are LMS positions in this order. */
  ghost predicate Ordered(t: seq<int>, p: int, q: int)
  {
    IsLms(t, p) && IsLms(t, q) ==> p != q && !SubLess(t, q, p)
  }

  lemma {:induction false} LmsInKeeps(t: seq<int>, A: seq<int>)
    requires forall a, b :: 0 <= a < b < |A| ==> Ordered(t, A[a], A[b])
    ensures forall j :: j in LmsIn(t, A) <==> j in A && IsLms(t, j)
    ensures forall a, b :: 0 <= a < b < |LmsIn(t, A)| ==> Ordered(t, LmsIn(t, A)[a], LmsIn(t, A)[b])
  {
    hide Ordered, IsLms;
    if A != [] {
      var rest := LmsIn(t, A[1..]);
      LmsInKeeps(t, A[1..]);
      forall b | 0 <= b < |rest| ensures Ordered(t, A[0], rest[b]) {
        assert rest[b] in rest;
        var q :| 0 <= q < |A[1..]| && A[1..][q] == rest[b];
        assert A[q + 1] == rest[b];
      }
      assert A == [A[0]] + A[1..];
    }
  }

  /** What the substring scans leave packed is the sorted list. */
  lemma PackedIsSorted(x: Ctx, s: Scan)
    requires x.Valid() && x.rk == NoRanks(x.t) && ScanS.Inv(x, s, 0)
    requires forall j :: IsLms(x.t, j) ==> x.from <= j
    ensures SortedSubs(x.t, LmsIn(x.t, s.A))
    ensures |LmsIn(x.t, s.A)| == |LmsFrom(x.t, 0)|
  {
    var l := LmsIn(x.t, s.A);
    forall a, b | 0 <= a < b < |s.A| ensures Ordered(x.t, s.A[a], s.A[b]) {
      if IsLms(x.t, s.A[a]) && IsLms(x.t, s.A[b]) {
        assert s.at[s.A[a]] == a && s.at[s.A[b]] == b;
      }
    }
    LmsInKeeps(x.t, s.A);
    forall j | IsLms(x.t, j) ensures j in l {
      ScanS.AllPlaced(x, s, j);
      assert s.A[s.at[j]] == j;
    }
    forall a | 0 <= a < |l| ensures IsLms(x.t, l[a]) {
      assert l[a] in l;
    }
    forall a, b | 0 <= a < b < |l| ensures l[a] != l[b] && !SubLess(x.t, l[b], l[a]) {
      assert Ordered(x.t, l[a], l[b]);
    }
    LmsFromAll(x.t);
    SameCount(x.t, l, LmsFrom(x.t, 0));
  }

  // ----- Names -----

  /** The name of the `a`-th substring of the sorted list: one more than the previous one's
      unless the two are equal. */
  ghost function Name(t: seq<int>, l: seq<int>, a: nat): (n: nat)
    requires a < |l| && forall c :: 0 <= c < |l| ==> 0 < l[c] < |t|
    ensures 1 <= n <= a + 1
  {
    if a == 0 then 1
    else Name(t, l, a - 1) + (if SubEq(t, l[a - 1], l[a]) then 0 else 1)
  }

  lemma SubEqOrder(t: seq<int>, textMax: nat, x: nat, y: nat)
    requires Symbols(t, textMax) && x < |t| && y < |t|
    ensures SubEq(t, x, y) <==> !SubLess(t, x, y) && !SubLess(t, y, x)
  {
    if SubEq(t, x, y) {
      SubEqIsSameKey(t, x, y);
    }
    if SameKey(t, x, y) {
      SameKeyIsSubEq(t, textMax, x, y);
    }
  }

  lemma SubLessSound(t: seq<int>, textMax: nat, x: nat, y: nat)
    requires Symbols(t, textMax) && x < |t| && y < |t| && SubLess(t, x, y)
    ensures Less(t, x, y)
  {
    SLessSound(t, textMax, NoRanks(t), x, y);
  }

  /** Names respect the order of substrings and identify exactly the equal ones. */
  lemma {:induction false} NameOrder(t: seq<int>, textMax: nat, l: seq<int>, a: nat, b: nat)
    requires Symbols(t, textMax) && SortedSubs(t, l) && a <= b < |l|
    ensures Name(t, l, a) <= Name(t, l, b)
    ensures Name(t, l, a) < Name(t, l, b) <==> SubLess(t, l[a], l[b])
    ensures Name(t, l, a) == Name(t, l, b) <==> SubEq(t, l[a], l[b])
    decreases b - a
  {
    hide SubEq, AllLms;
    SubEqOrder(t, textMax, l[a], l[b]);
    if a < b {
      NameOrder(t, textMax, l, a, b - 1);
      SubEqOrder(t, textMax, l[a], l[b - 1]);
      SubEqOrder(t, textMax, l[b - 1], l[b]);
      NameStep(t, textMax, l[a], l[b - 1], l[b]);
    } else {
      SLessIrreflexive(t, NoRanks(t), l[a]);
    }
  }

  lemma NameStep(t: seq<int>, textMax: nat, x: nat, y: nat, z: nat)
    requires Symbols(t, textMax) && x < |t| && y < |t| && z < |t|
    requires !SubLess(t, y, x) && !SubLess(t, z, y) && !SubLess(t, z, x)
    ensures SubLess(t, x, z) <==> SubLess(t, x, y) || SubLess(t, y, z)
  {
    var rk := NoRanks(t);
    if SubLess(t, x, z) {
      SLessSplit(t, textMax, rk, x, y, z);
    } else if SubLess(t, x, y) {
      SLessSplit(t, textMax, rk, x, z, y);
    } else if SubLess(t, y, z) {
      SLessSplit(t, textMax, rk, y, x, z);
    }
  }

  // ----- The reduced text -----

  /** `r` renames the LMS-substrings of `t`, in text order, faithfully. */
  ghost predicate Renames(t: seq<int>, r: seq<int>)
  {
    var l := LmsFrom(t, 0);
    && |r| == |l|
    && forall a, b :: 0 <= a < |r| && 0 <= b < |r| ==> Faithful(t, l[a], l[b], r[a], r[b])
  }

  ghost predicate Faithful(t: seq<int>, x: int, y: int, n: int, m: int)
  {
    && 0 < x < |t| && 0 < y < |t|
    && (n < m ==> Less(t, x, y))
    && (n == m ==> SubEq(t, x, y))
  }

  lemma LmsPositive(t: seq<int>, j: int)
    requires IsLms(t, j)
    ensures 0 < j < |t|
  {
  }

  lemma NextInList(t: seq<int>, i: nat, a: nat)
    requires a < |LmsFrom(t, i)|
    ensures var l := LmsFrom(t, i);
            0 < l[a] < |t| && NextLms(t, l[a]) == if a + 1 < |l| then l[a + 1] else |t|
  {
    hide LmsFrom, IsLms, NextLms, IsS;
    var l := LmsFrom(t, i);
    assert l[a] in l;
    LmsPositive(t, l[a]);
    var e := NextLms(t, l[a]);
    if a + 1 < |l| {
      assert l[a + 1] in l;
      LmsPositive(t, l[a + 1]);
    }
    if e < |t| {
      assert e in l;
      var c :| 0 <= c < |l| && l[c] == e;
      assert a < c;
    }
  }

  /** Suffixes that start with equal LMS-substrings compare as the suffixes behind them. */
  lemma SubEqSkip(t: seq<int>, x: nat, y: nat)
    requires x < |t| && y < |t| && x != y && SubEq(t, x, y)
    ensures var e, f := NextLms(t, x), NextLms(t, y);
            e < |t| && f < |t| && Less(t, x, y) == Less(t, e, f)
  {
    hide Less, NextLms, IsLms;
    var e, f := NextLms(t, x), NextLms(t, y);
    assert t[x..e] == t[x..e + 1][..e - x] == t[y..f + 1][..f - y] == t[y..f];
    LessSkip(t, x, y, e - x);
  }

  /** Sorting the reduced text sorts the LMS suffixes. */
  lemma {:induction false} ReductionOrder(t: seq<int>, r: seq<int>, a: nat, b: nat)
    requires Renames(t, r) && a < |r| && b < |r| && Less(r, a, b)
    ensures var l := LmsFrom(t, 0); 0 < l[a] < |t| && 0 < l[b] < |t| && Less(t, l[a], l[b])
    decreases |r| - a
  {
    hide SubEq, LmsFrom, NextLms;
    var l := LmsFrom(t, 0);
    assert Faithful(t, l[a], l[b], r[a], r[b]);
    if r[a] == r[b] {
      NextInList(t, 0, a);
      NextInList(t, 0, b);
      LessTotal(r, a + 1, b + 1);
      assert l[a] != l[b];
      SubEqSkip(t, l[a], l[b]);
      ReductionOrder(t, r, a + 1, b + 1);
    }
  }
}
