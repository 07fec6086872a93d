/** Bucket boundaries of a text, and the abstract array that the scans fill. */
module Buckets {
  import opened LmsTypes

  // ----- Boundaries -----

  ghost function HeadsBelow(t: seq<int>, h: int): set<int>
  {
    set p | 0 <= p < |t| && Head(t, p) < h
  }

  ghost function HeadSet(t: seq<int>, h: int): set<int>
  {
    set p | 0 <= p < |t| && Head(t, p) == h
  }

  /** Where the bucket half `h` starts: `2c` is the L-half and `2c+1` the S-half of symbol `c`. */
  ghost function Start(t: seq<int>, h: int): nat
  {
    |HeadsBelow(t, h)|
  }

  lemma {:induction false} SubsetSize<T>(x: set<T>, y: set<T>)
    requires x <= y
    ensures |x| <= |y|
    ensures x != y ==> |x| < |y|
  {
    var z := y - x;
    assert y == x + z;
    assert x != y ==> z != {};
  }

  lemma StartStep(t: seq<int>, h: int)
    ensures Start(t, h + 1) == Start(t, h) + |HeadSet(t, h)|
  {
    assert HeadsBelow(t, h + 1) == HeadsBelow(t, h) + HeadSet(t, h);
  }

  ghost function Range(n: nat): (r: set<int>)
    ensures |r| == n && forall p :: p in r <==> 0 <= p < n
  {
    if n == 0 then {} else Range(n - 1) + {n - 1}
  }

  lemma StartMonotone(t: seq<int>, h: int, g: int)
    requires h <= g
    ensures Start(t, h) <= Start(t, g) <= |t|
  {
    SubsetSize(HeadsBelow(t, h), HeadsBelow(t, g));
    SubsetSize(HeadsBelow(t, g), Range(|t|));
  }

  lemma StartEnds(t: seq<int>, textMax: nat)
    requires Symbols(t, textMax)
    ensures Start(t, 0) == 0 && Start(t, 2 * textMax) == |t|
  {
    assert HeadsBelow(t, 0) == {};
    assert HeadsBelow(t, 2 * textMax) == Range(|t|);
  }

  /** `bd` tabulates the boundaries of all bucket halves. */
  ghost predicate IsBounds(t: seq<int>, textMax: nat, bd: seq<int>)
  {
    |bd| == 2 * textMax + 1 && Tabulates(t, bd, |bd|)
  }

  ghost predicate Tabulates(t: seq<int>, bd: seq<int>, m: nat)
    requires m <= |bd|
  {
    m == 0 || (bd[m - 1] == Start(t, m - 1) && Tabulates(t, bd, m - 1))
  }

  lemma {:induction false} TabulatesAt(t: seq<int>, bd: seq<int>, m: nat, h: nat)
    requires h < m <= |bd| && Tabulates(t, bd, m)
    ensures bd[h] == Start(t, h)
  {
    if h < m - 1 {
      TabulatesAt(t, bd, m - 1, h);
    }
  }

  lemma {:induction false} TabulatesAll(t: seq<int>, bd: seq<int>, m: nat)
    requires m <= |bd| && forall h :: 0 <= h < m ==> bd[h] == Start(t, h)
    ensures Tabulates(t, bd, m)
  {
    if m > 0 {
      TabulatesAll(t, bd, m - 1);
    }
  }

  ghost predicate Ascending(n: nat, bd: seq<int>)
  {
    forall g, h :: 0 <= g <= h < |bd| ==> 0 <= bd[g] <= bd[h] <= n
  }

  ghost function Bounds(t: seq<int>, textMax: nat): (bd: seq<int>)
    ensures IsBounds(t, textMax, bd) && Ascending(|t|, bd)
    ensures Symbols(t, textMax) ==> bd[0] == 0 && bd[2 * textMax] == |t|
  {
    var bd := seq(2 * textMax + 1, h => Start(t, h));
    TabulatesAll(t, bd, |bd|);
    assert Ascending(|t|, bd) by {
      forall g, h | 0 <= g <= h < |bd| ensures 0 <= bd[g] <= bd[h] <= |t| {
        StartMonotone(t, g, h);
      }
    }
    assert Symbols(t, textMax) ==> bd[0] == 0 && bd[2 * textMax] == |t| by {
      if Symbols(t, textMax) {
        StartEnds(t, textMax);
      }
    }
    bd
  }

  // ----- The abstract array -----

  /** What stays fixed during a scan: the text over symbols below `textMax`, its bucket
      boundaries, the ranks of the starting positions, and the first position of interest. */
  datatype Ctx = Ctx(t: seq<int>, textMax: nat, bd: seq<int>, rk: seq<int>, from: nat)
  {
    ghost predicate Valid()
    {
      && 0 < |t| && Symbols(t, textMax) && |bd| == 2 * textMax + 1 && Ascending(|t|, bd)
      && |rk| == |t| && (from == 0 || IsLms(t, from))
    }

    /** Index `p` lies in the bucket half of position `j`. */
    ghost predicate InHalf(p: int, j: nat)
      requires j < |t|
    {
      0 <= Head(t, j) < |bd| - 1 && bd[Head(t, j)] <= p < bd[Head(t, j) + 1]
    }
  }

  /** `A[p]` is the position placed at index `p`, or -1; `at` is its inverse; `bk[c]` is the
      next index to fill in the half of bucket `c` that the scan works on. */
  datatype Scan = Scan(A: seq<int>, at: seq<int>, bk: seq<int>)

  ghost predicate Inverse(A: seq<int>, at: seq<int>)
  {
    && |A| == |at|
    && (forall p :: 0 <= p < |A| ==> A[p] == -1 || (0 <= A[p] < |A| && at[A[p]] == p))
    && (forall j :: 0 <= j < |at| ==> at[j] == -1 || (0 <= at[j] < |A| && A[at[j]] == j))
  }

  lemma {:induction false} ImageSize(A: seq<int>, at: seq<int>, lo: nat, hi: nat)
    requires Inverse(A, at) && lo <= hi <= |A|
    requires forall p :: lo <= p < hi ==> A[p] != -1
    ensures |set p | lo <= p < hi :: A[p]| == hi - lo
    decreases hi
  {
    if lo < hi {
      ImageSize(A, at, lo, hi - 1);
      assert (set p | lo <= p < hi :: A[p]) == (set p | lo <= p < hi - 1 :: A[p]) + {A[hi - 1]};
    }
  }

  /** As long as some position of the half is not among the placed ones, there is room. */
  lemma RoomLeft(x: Ctx, A: seq<int>, at: seq<int>, h: int, lo: nat, hi: nat, k: nat)
    requires x.Valid() && IsBounds(x.t, x.textMax, x.bd)
    requires Inverse(A, at) && |A| == |x.t| && lo <= hi <= |A|
    requires forall p :: lo <= p < hi ==> A[p] != -1 && Head(x.t, A[p]) == h
    requires k < |x.t| && Head(x.t, k) == h && !(lo <= at[k] < hi)
    ensures 0 <= h < 2 * x.textMax && hi - lo < x.bd[h + 1] - x.bd[h]
  {
    TabulatesAt(x.t, x.bd, |x.bd|, h);
    TabulatesAt(x.t, x.bd, |x.bd|, h + 1);
    var placed := set p | lo <= p < hi :: A[p];
    ImageSize(A, at, lo, hi);
    StartStep(x.t, h);
    assert placed <= HeadSet(x.t, h);
    assert k in HeadSet(x.t, h) && k !in placed;
    SubsetSize(placed, HeadSet(x.t, h));
  }

  /** An index lies in one bucket half only. */
  lemma HalfUnique(x: Ctx, p: int, j: nat, h: nat)
    requires x.Valid() && j < |x.t| && x.InHalf(p, j)
    requires h < 2 * x.textMax && x.bd[h] <= p < x.bd[h + 1]
    ensures Head(x.t, j) == h
  {
  }

  /** Larger index, larger or equal bucket half. */
  lemma HeadsByIndex(x: Ctx, p: int, i: nat, q: int, j: nat)
    requires x.Valid() && i < |x.t| && j < |x.t| && p < q && x.InHalf(p, i) && x.InHalf(q, j)
    ensures Head(x.t, i) <= Head(x.t, j)
  {
  }

  ghost function Upto(ks: set<int>, n: nat): set<int>
  {
    set k | 0 <= k < n && k in ks
  }

  lemma UptoStep(ks: set<int>, n: nat)
    requires 0 < n
    ensures |Upto(ks, n)| == |Upto(ks, n - 1)| + if n - 1 in ks then 1 else 0
  {
    assert Upto(ks, n) == Upto(ks, n - 1) + if n - 1 in ks then {n - 1} else {};
  }

  lemma {:induction false} InjectionSize(at: seq<int>, n: nat, ks: set<int>, cells: set<int>)
    requires n <= |at| && forall k :: 0 <= k < n && k in ks ==> at[k] in cells
    requires forall k, m :: 0 <= k < m < n && k in ks && m in ks ==> at[k] != at[m]
    ensures |Upto(ks, n)| <= |cells|
  {
    if n == 0 {
      assert Upto(ks, 0) == {};
    } else {
      hide Upto;
      UptoStep(ks, n);
      InjectionSize(at, n - 1, ks, if n - 1 in ks then cells - {at[n - 1]} else cells);
    }
  }

  ghost function Interval(lo: int, hi: int): (r: set<int>)
    requires lo <= hi
    ensures |r| == hi - lo && forall p :: p in r <==> lo <= p < hi
    decreases hi - lo
  {
    if lo == hi then {} else Interval(lo, hi - 1) + {hi - 1}
  }

  /** An empty index in a half betrays a position of that half that is not placed. */
  lemma Hole(x: Ctx, A: seq<int>, at: seq<int>, h: nat, i: nat) returns (k: nat)
    requires x.Valid() && IsBounds(x.t, x.textMax, x.bd) && h < 2 * x.textMax
    requires Inverse(A, at) && |A| == |x.t|
    requires forall p :: 0 <= p < |A| && A[p] != -1 ==> x.InHalf(p, A[p])
    requires x.bd[h] <= i < x.bd[h + 1] && A[i] == -1
    ensures k < |x.t| && Head(x.t, k) == h && at[k] == -1
  {
    hide Tabulates, Start;
    TabulatesAt(x.t, x.bd, |x.bd|, h);
    TabulatesAt(x.t, x.bd, |x.bd|, h + 1);
    StartStep(x.t, h);
    var all := HeadSet(x.t, h);
    if m :| m in all && at[m] == -1 {
      k := m;
    } else {
      NoHole(x, A, at, h, i);
      assert false;
    }
  }

  /** A half that has an empty index, with all its positions placed, has more indices than positions. */
  lemma NoHole(x: Ctx, A: seq<int>, at: seq<int>, h: nat, i: nat)
    requires x.Valid() && h < 2 * x.textMax && Inverse(A, at) && |A| == |x.t|
    requires forall p :: 0 <= p < |A| && A[p] != -1 ==> x.InHalf(p, A[p])
    requires x.bd[h] <= i < x.bd[h + 1] && A[i] == -1
    requires forall k :: k in HeadSet(x.t, h) ==> at[k] != -1
    ensures |HeadSet(x.t, h)| < x.bd[h + 1] - x.bd[h]
  {
    var cells := Interval(x.bd[h], x.bd[h + 1]);
    var all := HeadSet(x.t, h);
    assert all == Upto(all, |at|);
    forall k | k in all ensures at[k] in cells - {i} {
      assert x.InHalf(at[k], A[at[k]]);
    }
    InjectionSize(at, |at|, all, cells - {i});
  }

  /** Every index lies in some bucket half. */
  lemma HalfOf(x: Ctx, i: nat) returns (h: nat)
    requires x.Valid() && x.bd[0] == 0 && x.bd[2 * x.textMax] == |x.t| && i < |x.t|
    ensures h < 2 * x.textMax && x.bd[h] <= i < x.bd[h + 1]
  {
    h := 0;
    while x.bd[h + 1] <= i
      invariant h < 2 * x.textMax && x.bd[h] <= i
      decreases 2 * x.textMax - h
    {
      h := h + 1;
    }
  }
}
