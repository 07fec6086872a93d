/** How each scan writes the abstract array down in the one array it works in: the sign of a
    cell tells queued positions from finished ones, and 0 stands for an empty cell. */
module Cells {
  import opened Suffixes
  import opened LmsTypes
  import opened Buckets
  import opened Seeds
  import ScanL
  import ScanS

  // ----- Sorting substrings, left to right -----

  /** Queued positions are positive, L-positions kept for the next scan are negative until
      the scan has passed them, and used-up positions are cleared. */
  ghost function SubLCell(t: seq<int>, j: int, passed: bool): int
    requires -1 <= j < |t|
  {
    if j == -1 then 0
    else if 0 < j && !IsS(t, j) && IsS(t, j - 1) then (if passed then j else -j)
    else if passed then 0 else j
  }

  ghost predicate HoldsSubL(t: seq<int>, sa: seq<int>, A: seq<int>, i: int)
    ensures HoldsSubL(t, sa, A, i) ==> |sa| == |A| == |t|
  {
    && |sa| == |A| == |t|
    && forall p :: 0 <= p < |t| ==> -1 <= A[p] < |t| && sa[p] == SubLCell(t, A[p], p < i)
  }

  lemma SubLRange(t: seq<int>, sa: seq<int>, A: seq<int>, i: int, p: nat)
    requires HoldsSubL(t, sa, A, i) && p < |t|
    ensures -|t| < sa[p] < |t|
  {
  }

  /** The value written for an L-position `k`: negated if its left neighbour is smaller. */
  ghost function LMark(t: seq<int>, k: int): int
    requires 0 <= k < |t|
  {
    if 0 < k && t[k - 1] < t[k] then -k else k
  }

  lemma LMarkType(t: seq<int>, k: nat)
    requires 0 < k < |t| && !IsS(t, k)
    ensures IsS(t, k - 1) <==> t[k - 1] < t[k]
  {
  }

  lemma SubLBegin(x: Ctx, s: Scan, sa: seq<int>)
    requires x.Valid() && IsBounds(x.t, x.textMax, x.bd) && 0 < x.from && ScanL.Seeded(x, s) && Holds(sa, s.A)
    ensures 1 < |x.t| && ScanL.Room(x, s, |x.t| - 1)
    ensures var s', k := ScanL.Place(x, s, |x.t| - 1), |x.t| - 1;
            ScanL.Inv(x, s', 0) && HoldsSubL(x.t, sa[s.bk[x.t[k]] := LMark(x.t, k)], s'.A, 0)
  {
    ScanL.Begin(x, s);
    LMarkType(x.t, |x.t| - 1);
    SubLSeeds(x, s, sa);
  }

  lemma SubLSeeds(x: Ctx, s: Scan, sa: seq<int>)
    requires x.Valid() && 0 < x.from && ScanL.Seeded(x, s) && Holds(sa, s.A)
    ensures HoldsSubL(x.t, sa, s.A, 0)
  {
    forall p | 0 <= p < |x.t| ensures sa[p] == SubLCell(x.t, s.A[p], false) {
      if s.A[p] != -1 {
        assert s.at[s.A[p]] == p;
      }
    }
  }

  /** A positive cell is a position whose left neighbour is of type L. */
  lemma SubLRead(x: Ctx, s: Scan, sa: seq<int>, i: nat)
    requires x.Valid() && 0 < x.from && ScanL.Inv(x, s, i) && HoldsSubL(x.t, sa, s.A, i) && i < |x.t|
    ensures sa[i] > 0 ==> s.A[i] == sa[i] && 1 < sa[i] && !IsS(x.t, sa[i] - 1)
    ensures sa[i] <= 0 && s.A[i] > 0 ==> IsS(x.t, s.A[i] - 1)
  {
  }

  lemma SubLStep(x: Ctx, s: Scan, sa: seq<int>, i: nat)
    requires x.Valid() && IsBounds(x.t, x.textMax, x.bd)
    requires 0 < x.from && ScanL.Inv(x, s, i) && HoldsSubL(x.t, sa, s.A, i) && i < |x.t| && sa[i] > 0
    ensures 1 < sa[i] <= |x.t| && ScanL.Room(x, s, sa[i] - 1)
    ensures var k := sa[i] - 1; var b := s.bk[x.t[k]]; var s' := ScanL.Place(x, s, k);
            i < b && ScanL.Inv(x, s', i + 1) && HoldsSubL(x.t, sa[i := 0][b := LMark(x.t, k)], s'.A, i + 1)
  {
    hide ScanL.Sorted, ScanL.Progress, ScanL.Filled, IsS, HoldsSubL;
    SubLRead(x, s, sa, i);
    ScanL.Step(x, s, i);
    SubLWrite(x.t, sa, s.A, i, sa[i] - 1, s.bk[x.t[sa[i] - 1]]);
  }

  lemma SubLWrite(t: seq<int>, sa: seq<int>, A: seq<int>, i: nat, k: nat, b: nat)
    requires HoldsSubL(t, sa, A, i) && 0 < k < |t| && !IsS(t, k) && i < b < |t| && sa[i] > 0
    ensures HoldsSubL(t, sa[i := 0][b := LMark(t, k)], A[b := k], i + 1)
  {
    LMarkType(t, k);
  }

  lemma SubLSkip(x: Ctx, s: Scan, sa: seq<int>, i: nat)
    requires x.Valid()
    requires 0 < x.from && ScanL.Inv(x, s, i) && HoldsSubL(x.t, sa, s.A, i) && i < |x.t| && sa[i] <= 0
    ensures ScanL.Inv(x, s, i + 1) && HoldsSubL(x.t, sa[i := -sa[i]], s.A, i + 1)
  {
    SubLRead(x, s, sa, i);
    ScanL.Skip(x, s, i);
  }

  // ----- Sorting suffixes, left to right -----

  /** L-positions with an S-type left neighbour are negated; nothing is cleared. */
  ghost function LCell(t: seq<int>, j: int): int
    requires -1 <= j < |t|
  {
    if j == -1 then 0 else if 0 < j && !IsS(t, j) && IsS(t, j - 1) then -j else j
  }

  ghost predicate HoldsL(t: seq<int>, sa: seq<int>, A: seq<int>)
    ensures HoldsL(t, sa, A) ==> |sa| == |A| == |t|
  {
    |sa| == |A| == |t| && forall p :: 0 <= p < |t| ==> -1 <= A[p] < |t| && sa[p] == LCell(t, A[p])
  }

  lemma LWrite(t: seq<int>, sa: seq<int>, A: seq<int>, k: nat, b: nat)
    requires HoldsL(t, sa, A) && k < |t| && !IsS(t, k) && b < |t|
    ensures HoldsL(t, sa[b := LMark(t, k)], A[b := k])
  {
    if 0 < k {
      LMarkType(t, k);
    }
  }

  lemma LBegin(x: Ctx, s: Scan, sa: seq<int>)
    requires x.Valid() && IsBounds(x.t, x.textMax, x.bd) && x.from == 0 && ScanL.Seeded(x, s) && Holds(sa, s.A)
    ensures ScanL.Room(x, s, |x.t| - 1)
    ensures var s', k := ScanL.Place(x, s, |x.t| - 1), |x.t| - 1;
            ScanL.Inv(x, s', 0) && HoldsL(x.t, sa[s.bk[x.t[k]] := LMark(x.t, k)], s'.A)
  {
    ScanL.Begin(x, s);
    LSeeds(x, s, sa);
    LWrite(x.t, sa, s.A, |x.t| - 1, s.bk[x.t[|x.t| - 1]]);
  }

  lemma LSeeds(x: Ctx, s: Scan, sa: seq<int>)
    requires x.Valid() && ScanL.Seeded(x, s) && Holds(sa, s.A)
    ensures HoldsL(x.t, sa, s.A)
  {
    forall p | 0 <= p < |x.t| ensures sa[p] == LCell(x.t, s.A[p]) {
      if s.A[p] != -1 {
        assert s.at[s.A[p]] == p;
      }
    }
  }

  lemma LRead(x: Ctx, s: Scan, sa: seq<int>, i: nat)
    requires x.Valid() && ScanL.Inv(x, s, i) && HoldsL(x.t, sa, s.A) && i < |x.t|
    ensures sa[i] > 0 ==> s.A[i] == sa[i] && !IsS(x.t, sa[i] - 1)
    ensures sa[i] <= 0 && s.A[i] > 0 ==> IsS(x.t, s.A[i] - 1)
  {
  }

  lemma LStep(x: Ctx, s: Scan, sa: seq<int>, i: nat)
    requires x.Valid() && IsBounds(x.t, x.textMax, x.bd)
    requires ScanL.Inv(x, s, i) && HoldsL(x.t, sa, s.A) && i < |x.t| && sa[i] > 0
    ensures sa[i] <= |x.t| && ScanL.Room(x, s, sa[i] - 1)
    ensures var k := sa[i] - 1; var b := s.bk[x.t[k]]; var s' := ScanL.Place(x, s, k);
            i < b && ScanL.Inv(x, s', i + 1) && HoldsL(x.t, sa[b := LMark(x.t, k)], s'.A)
  {
    hide ScanL.Sorted, ScanL.Progress, ScanL.Filled, IsS, HoldsL;
    LRead(x, s, sa, i);
    ScanL.Step(x, s, i);
    LWrite(x.t, sa, s.A, sa[i] - 1, s.bk[x.t[sa[i] - 1]]);
  }

  lemma LSkip(x: Ctx, s: Scan, sa: seq<int>, i: nat)
    requires x.Valid() && ScanL.Inv(x, s, i) && HoldsL(x.t, sa, s.A) && i < |x.t| && sa[i] <= 0
    ensures ScanL.Inv(x, s, i + 1)
  {
    LRead(x, s, sa, i);
    ScanL.Skip(x, s, i);
  }

  // ----- Sorting substrings, right to left -----

  /** The LMS positions among `A`, in the order they appear there. */
  ghost function LmsIn(t: seq<int>, A: seq<int>): (r: seq<int>)
    ensures |r| <= |A|
  {
    if A == [] then [] else if IsLms(t, A[0]) then [A[0]] + LmsIn(t, A[1..]) else LmsIn(t, A[1..])
  }

  ghost function SubSCell(t: seq<int>, j: int): int
    requires -1 <= j < |t|
  {
    if j == -1 then 0
    else if IsLms(t, j) then -j
    else if IsS(t, j) || (0 < j && IsS(t, j - 1)) then j
    else 0
  }

  /** Queued positions are positive, LMS positions negative; those the scan has passed are
      packed, in order, from `top` on, and everything else it has passed is cleared. */
  ghost predicate HoldsSubS(t: seq<int>, sa: seq<int>, A: seq<int>, i: int, top: int)
    ensures HoldsSubS(t, sa, A, i, top) ==> |sa| == |A| == |t| && 0 <= i <= top <= |t|
  {
    && |sa| == |A| == |t| && 0 <= i <= top <= |t|
    && (forall p :: 0 <= p < i ==> -1 <= A[p] < |t| && sa[p] == SubSCell(t, A[p]))
    && (forall p :: i <= p < top ==> sa[p] == 0)
    && sa[top..] == LmsIn(t, A[i..])
  }

  lemma SubSRange(t: seq<int>, sa: seq<int>, A: seq<int>, i: nat, top: int)
    requires HoldsSubS(t, sa, A, i + 1, top)
    ensures -|t| < sa[i] < |t|
  {
  }

  ghost function SubSMark(t: seq<int>, k: int): int
    requires 0 < k < |t|
  {
    if t[k - 1] > t[k] then -k else k
  }

  lemma SubSMarkType(t: seq<int>, k: nat)
    requires 0 < k < |t| && IsS(t, k)
    ensures IsLms(t, k) <==> t[k - 1] > t[k]
  {
  }

  lemma SubSBegin(x: Ctx, s: Scan, sa: seq<int>)
    requires x.Valid() && ScanL.Inv(x, s, |x.t|) && HoldsSubL(x.t, sa, s.A, |x.t|)
    ensures ScanS.Inv(x, ScanS.Handover(x, s), |x.t|)
    ensures HoldsSubS(x.t, sa, ScanS.Handover(x, s).A, |x.t|, |x.t|)
  {
    ScanS.Begin(x, s);
    SubSHandover(x, s, sa);
  }

  lemma SubSHandover(x: Ctx, s: Scan, sa: seq<int>)
    requires x.Valid() && ScanL.Shape(x, s) && HoldsSubL(x.t, sa, s.A, |x.t|)
    ensures HoldsSubS(x.t, sa, ScanS.Handover(x, s).A, |x.t|, |x.t|)
  {
    hide SubLCell, SubSCell, ScanL.Shape, ScanS.Handover;
    var A := ScanS.Handover(x, s).A;
    forall p | 0 <= p < |x.t| ensures -1 <= A[p] < |x.t| && sa[p] == SubSCell(x.t, A[p]) {
      HandoverCell(x.t, s.A[p]);
    }
    assert A[|x.t|..] == [] && sa[|x.t|..] == [];
  }

  /** A cell means the same to both scans when it is handed over. */
  lemma HandoverCell(t: seq<int>, j: int)
    requires -1 <= j < |t|
    ensures SubLCell(t, j, true) == SubSCell(t, if j != -1 && !IsS(t, j) then j else -1)
  {
  }

  lemma SubSRead(x: Ctx, s: Scan, sa: seq<int>, i: nat, top: int)
    requires x.Valid() && 0 < x.from && i < |x.t| && ScanS.Inv(x, s, i + 1) && HoldsSubS(x.t, sa, s.A, i + 1, top)
    ensures sa[i] > 0 ==> s.A[i] == sa[i] && !IsLms(x.t, sa[i]) && IsS(x.t, sa[i] - 1)
    ensures sa[i] < 0 ==> s.A[i] == -sa[i] && IsLms(x.t, s.A[i])
    ensures sa[i] == 0 ==> !IsLms(x.t, s.A[i])
    ensures sa[i] <= 0 && s.A[i] > 0 ==> !IsS(x.t, s.A[i] - 1)
  {
    hide SubSCell, LmsIn, IsS, IsLms, ScanS.Sorted, ScanS.Progress, ScanS.Filled;
    SubSMeans(x.t, s.A[i]);
  }

  lemma SubSMeans(t: seq<int>, j: int)
    requires j == -1 || 0 < j < |t|
    ensures var v := SubSCell(t, j);
            && (v > 0 ==> j == v && !IsLms(t, v) && IsS(t, v - 1))
            && (v < 0 ==> j == -v && IsLms(t, j))
            && (v == 0 ==> !IsLms(t, j))
            && (v <= 0 && j > 0 ==> !IsS(t, j - 1))
  {
  }

  lemma SubSStep(x: Ctx, s: Scan, sa: seq<int>, i: nat, top: int)
    requires x.Valid() && IsBounds(x.t, x.textMax, x.bd)
    requires 0 < x.from && i < |x.t| && ScanS.Inv(x, s, i + 1) && HoldsSubS(x.t, sa, s.A, i + 1, top) && sa[i] > 0
    ensures 1 < sa[i] <= |x.t| && ScanS.Room(x, s, sa[i] - 1)
    ensures var k := sa[i] - 1; var b := s.bk[x.t[k]] - 1; var s' := ScanS.Place(x, s, k);
            && 0 <= b < i && ScanS.Inv(x, s', i)
            && HoldsSubS(x.t, sa[i := 0][b := SubSMark(x.t, k)], s'.A, i, top)
  {
    hide ScanS.Sorted, ScanS.Progress, ScanS.Filled, LmsIn, IsS, HoldsSubS;
    SubSRead(x, s, sa, i, top);
    ScanS.Step(x, s, i);
    var k := sa[i] - 1;
    SubSWrite(x.t, sa, s.A, i, top, k, s.bk[x.t[k]] - 1);
  }

  lemma SubSWrite(t: seq<int>, sa: seq<int>, A: seq<int>, i: nat, top: int, k: nat, b: nat)
    requires i < |t| && HoldsSubS(t, sa, A, i + 1, top) && !IsLms(t, A[i])
    requires 0 < k < |t| && IsS(t, k) && b < i
    ensures HoldsSubS(t, sa[i := 0][b := SubSMark(t, k)], A[b := k], i, top)
  {
    SubSMarkType(t, k);
    var sa', A' := sa[i := 0][b := SubSMark(t, k)], A[b := k];
    assert A'[i..] == A[i..] && A[i..][1..] == A[i + 1..];
    assert sa'[top..] == sa[top..];
  }

  lemma SubSSkip(x: Ctx, s: Scan, sa: seq<int>, i: nat, top: int)
    requires x.Valid() && 0 < x.from && i < |x.t|
    requires ScanS.Inv(x, s, i + 1) && HoldsSubS(x.t, sa, s.A, i + 1, top) && sa[i] == 0
    ensures ScanS.Inv(x, s, i) && HoldsSubS(x.t, sa, s.A, i, top)
  {
    SubSRead(x, s, sa, i, top);
    ScanS.Skip(x, s, i);
    assert s.A[i..][1..] == s.A[i + 1..];
  }

  lemma SubSKeep(x: Ctx, s: Scan, sa: seq<int>, i: nat, top: int)
    requires x.Valid() && 0 < x.from && i < |x.t|
    requires ScanS.Inv(x, s, i + 1) && HoldsSubS(x.t, sa, s.A, i + 1, top) && sa[i] < 0
    ensures i < top && ScanS.Inv(x, s, i) && HoldsSubS(x.t, sa[i := 0][top - 1 := -sa[i]], s.A, i, top - 1)
  {
    SubSRead(x, s, sa, i, top);
    ScanS.Skip(x, s, i);
    SubSPack(x.t, sa, s.A, i, top);
  }

  lemma SubSPack(t: seq<int>, sa: seq<int>, A: seq<int>, i: nat, top: int)
    requires i < |t| && HoldsSubS(t, sa, A, i + 1, top) && IsLms(t, A[i]) && sa[i] == -A[i]
    ensures i < top && HoldsSubS(t, sa[i := 0][top - 1 := -sa[i]], A, i, top - 1)
  {
    hide IsLms;
    assert A[i..][1..] == A[i + 1..];
    var sa' := sa[i := 0][top - 1 := -sa[i]];
    assert sa'[top - 1..] == [A[i]] + sa[top..];
  }

  // ----- Sorting suffixes, right to left -----

  /** A position with an S-type left neighbour is negated until the scan has passed it. */
  ghost function SCell(t: seq<int>, j: int, passed: bool): int
    requires 0 <= j < |t|
  {
    if 0 < j && IsS(t, j - 1) && !passed then -j else j
  }

  /** Indices still to be filled may hold anything. */
  ghost predicate HoldsS(t: seq<int>, sa: seq<int>, A: seq<int>, i: int)
    ensures HoldsS(t, sa, A, i) ==> |sa| == |A| == |t|
  {
    && |sa| == |A| == |t|
    && forall p :: 0 <= p < |t| && A[p] != -1 ==> 0 <= A[p] < |t| && sa[p] == SCell(t, A[p], i <= p)
  }

  ghost function SMark(t: seq<int>, k: int): int
    requires 0 <= k < |t|
  {
    if 0 < k && t[k - 1] <= t[k] then -k else k
  }

  lemma SBegin(x: Ctx, s: Scan, sa: seq<int>)
    requires x.Valid() && ScanL.Inv(x, s, |x.t|) && HoldsL(x.t, sa, s.A)
    ensures ScanS.Inv(x, ScanS.Handover(x, s), |x.t|)
    ensures HoldsS(x.t, sa, ScanS.Handover(x, s).A, |x.t|)
  {
    ScanS.Begin(x, s);
    SHandover(x, s, sa);
  }

  lemma SHandover(x: Ctx, s: Scan, sa: seq<int>)
    requires x.Valid() && ScanL.Shape(x, s) && HoldsL(x.t, sa, s.A)
    ensures HoldsS(x.t, sa, ScanS.Handover(x, s).A, |x.t|)
  {
  }

  ghost predicate WholeText(x: Ctx)
  {
    && x.Valid() && IsBounds(x.t, x.textMax, x.bd) && x.from == 0
    && x.bd[0] == 0 && x.bd[2 * x.textMax] == |x.t|
  }

  lemma SRead(x: Ctx, s: Scan, sa: seq<int>, i: nat)
    requires WholeText(x) && i < |x.t|
    requires ScanS.Inv(x, s, i + 1) && ScanS.Dense(s.A, i + 1) && HoldsS(x.t, sa, s.A, i + 1)
    ensures s.A[i] != -1
    ensures sa[i] < 0 ==> s.A[i] == -sa[i] && IsS(x.t, s.A[i] - 1)
    ensures sa[i] >= 0 ==> s.A[i] == sa[i] && (0 < sa[i] ==> !IsS(x.t, sa[i] - 1))
  {
    hide IsS, ScanS.Shape, ScanS.Sorted, ScanS.Progress;
    ScanS.DenseNext(x, s, i);
  }

  lemma SStep(x: Ctx, s: Scan, sa: seq<int>, i: nat)
    requires WholeText(x) && i < |x.t|
    requires ScanS.Inv(x, s, i + 1) && ScanS.Dense(s.A, i + 1) && HoldsS(x.t, sa, s.A, i + 1) && sa[i] < 0
    ensures -sa[i] <= |x.t| && ScanS.Room(x, s, -sa[i] - 1)
    ensures var k := -sa[i] - 1; var b := s.bk[x.t[k]] - 1; var s' := ScanS.Place(x, s, k);
            && 0 <= b < i && ScanS.Inv(x, s', i) && ScanS.Dense(s'.A, i)
            && HoldsS(x.t, sa[i := -sa[i]][b := SMark(x.t, k)], s'.A, i)
  {
    hide ScanS.Sorted, ScanS.Progress, ScanS.Filled, IsS, HoldsS;
    SRead(x, s, sa, i);
    ScanS.Step(x, s, i);
    var k := -sa[i] - 1;
    SWrite(x.t, sa, s.A, i, k, s.bk[x.t[k]] - 1);
  }

  lemma SWrite(t: seq<int>, sa: seq<int>, A: seq<int>, i: nat, k: nat, b: nat)
    requires i < |t| && HoldsS(t, sa, A, i + 1) && sa[i] < 0 && A[i] == -sa[i] && k < |t| && IsS(t, k) && b < i
    ensures HoldsS(t, sa[i := -sa[i]][b := SMark(t, k)], A[b := k], i)
  {
    if 0 < k {
      SubSMarkType(t, k);
    }
  }

  lemma SSkip(x: Ctx, s: Scan, sa: seq<int>, i: nat)
    requires WholeText(x) && i < |x.t|
    requires ScanS.Inv(x, s, i + 1) && ScanS.Dense(s.A, i + 1) && HoldsS(x.t, sa, s.A, i + 1) && sa[i] >= 0
    ensures ScanS.Inv(x, s, i) && ScanS.Dense(s.A, i) && HoldsS(x.t, sa, s.A, i)
  {
    hide IsS, ScanS.Shape, ScanS.Sorted, ScanS.Progress;
    SRead(x, s, sa, i);
    ScanS.Skip(x, s, i);
  }

  /** When the scan is over, the array is the suffix array. */
  lemma SDone(x: Ctx, s: Scan, sa: seq<int>)
    requires WholeText(x) && RankComplete(x.t, x.rk)
    requires ScanS.Inv(x, s, 0) && ScanS.Dense(s.A, 0) && HoldsS(x.t, sa, s.A, 0)
    ensures IsSuffixArray(x.t, sa)
  {
    ScanS.Sorts(x, s);
    assert sa == s.A;
  }
}
