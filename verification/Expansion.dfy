/** Spreading the sorted LMS suffixes from the bottom of the array to the right ends of their
    buckets, in the same array. */
module Expansion {
  import opened Suffixes
  import opened LmsTypes
  import opened Buckets
  import opened Naming
  import opened Notes
  import opened Seeds
  import ScanL
  import ScanS

  ghost function Find(u: seq<int>, j: int): nat
  {
    if u == [] || u[0] == j then 0 else 1 + Find(u[1..], j)
  }

  lemma {:induction false} FindAt(u: seq<int>, a: nat)
    requires a < |u| && forall i, k :: 0 <= i < k < |u| ==> u[i] != u[k]
    ensures Find(u, u[a]) == a
  {
    if a > 0 {
      assert u[0] != u[a];
      FindAt(u[1..], a - 1);
    }
  }

  /** The rank of each LMS position among the sorted suffixes `u`. */
  ghost function Ranks(t: seq<int>, u: seq<int>): (rk: seq<int>)
    ensures |rk| == |t|
    ensures SortedLms(t, u) ==> forall a :: 0 <= a < |u| ==> rk[u[a]] == a
  {
    var rk := seq(|t|, j => Find(u, j));
    assert SortedLms(t, u) ==> forall a :: 0 <= a < |u| ==> rk[u[a]] == a by {
      if SortedLms(t, u) {
        forall a | 0 <= a < |u| ensures rk[u[a]] == a {
          FindAt(u, a);
        }
      }
    }
    rk
  }

  lemma RanksComplete(t: seq<int>, u: seq<int>)
    requires SortedLms(t, u)
    ensures RankComplete(t, Ranks(t, u))
  {
    var rk := Ranks(t, u);
    forall a: nat, b: nat | IsLms(t, a) && IsLms(t, b) && Less(t, a, b) ensures rk[a] < rk[b] {
      var i := IndexOf(t, u, a);
      var j := IndexOf(t, u, b);
      LessTotal(t, a, b);
    }
  }

  /** Exactly the suffixes from the `a`-th on have been placed. */
  ghost predicate Spread(x: Ctx, s: Scan, u: seq<int>, a: nat)
    requires x.Valid()
    ensures Spread(x, s, u, a) ==> |s.A| == |s.at| == |x.t| && |s.bk| == x.textMax
    ensures Spread(x, s, u, a) ==> forall c :: 0 <= c < |u| ==> 0 < u[c] < |x.t|
  {
    && SortedLms(x.t, u) && x.rk == Ranks(x.t, u) && x.from == 0 && a <= |u|
    && ScanS.Shape(x, s) && Ranked(x, s)
    && (forall c :: 0 <= c < |u| ==> (s.at[u[c]] != -1 <==> a <= c))
  }

  lemma SpreadNone(x: Ctx, u: seq<int>)
    requires x.Valid() && SortedLms(x.t, u) && x.rk == Ranks(x.t, u) && x.from == 0
    ensures Spread(x, Scan(Nowhere(|x.t|), Nowhere(|x.t|), SEnds(x)), u, |u|)
  {
    Empty(x);
  }

  /** The next suffix goes to the left of everything placed. */
  lemma SpreadPlace(x: Ctx, s: Scan, u: seq<int>, a: nat)
    requires x.Valid() && IsBounds(x.t, x.textMax, x.bd) && Spread(x, s, u, a + 1) && a < |u|
    ensures ScanS.Room(x, s, u[a]) && Spread(x, ScanS.Place(x, s, u[a]), u, a)
    ensures a <= s.bk[x.t[u[a]]] - 1 && s.at[u[a]] == -1
    ensures forall p :: 0 <= p < |x.t| && s.A[p] != -1 ==> s.bk[x.t[u[a]]] - 1 < p
  {
    var k := u[a];
    forall j | 0 <= j < |x.t| && s.at[j] != -1 && Head(x.t, j) == Head(x.t, k) ensures x.rk[k] <= x.rk[j] {
      PlacedRank(x, s, u, a, j);
    }
    PlaceSeed(x, s, k);
    SpreadNext(x, s, u, a);
    forall p | 0 <= p < |x.t| && s.A[p] != -1 ensures s.bk[x.t[k]] - 1 < p {
      LeftOfPlaced(x, s, u, a, p);
    }
    RoomBelow(x, s, u, a);
  }

  lemma PlacedRank(x: Ctx, s: Scan, u: seq<int>, a: nat, j: nat)
    requires x.Valid() && Spread(x, s, u, a + 1) && a < |u| && j < |x.t| && s.at[j] != -1
    ensures x.rk[u[a]] == a < x.rk[j] < |u| && u[x.rk[j]] == j
  {
    assert IsLms(x.t, s.A[s.at[j]]);
    var i := IndexOf(x.t, u, j);
  }

  lemma SpreadNext(x: Ctx, s: Scan, u: seq<int>, a: nat)
    requires x.Valid() && Spread(x, s, u, a + 1) && a < |u| && ScanS.Room(x, s, u[a])
    requires ScanS.Shape(x, ScanS.Place(x, s, u[a])) && Ranked(x, ScanS.Place(x, s, u[a]))
    ensures Spread(x, ScanS.Place(x, s, u[a]), u, a)
  {
    hide Ranked, ScanS.Shape, Less, IsLms;
  }

  lemma LeftOfPlaced(x: Ctx, s: Scan, u: seq<int>, a: nat, p: nat)
    requires x.Valid() && Spread(x, s, u, a + 1) && a < |u| && p < |x.t| && s.A[p] != -1
    ensures s.bk[x.t[u[a]]] - 1 < p
  {
    var k, j := u[a], s.A[p];
    assert s.at[j] == p;
    PlacedRank(x, s, u, a, j);
    assert Less(x.t, k, j);
    assert x.t[k] <= x.t[j];
    assert x.InHalf(p, j) && Head(x.t, j) == 2 * x.t[j] + 1;
    if x.t[k] < x.t[j] {
      assert x.bd[2 * x.t[k] + 2] <= x.bd[2 * x.t[j] + 1];
    }
  }

  /** The suffixes still to come fit below the index of the next one, so none of the cells
      they wait in is overwritten too early. */
  lemma RoomBelow(x: Ctx, s: Scan, u: seq<int>, a: nat)
    requires x.Valid() && IsBounds(x.t, x.textMax, x.bd) && Spread(x, s, u, a + 1) && a < |u|
    ensures a <= s.bk[x.t[u[a]]] - 1
  {
    hide *;
    var w := u[..a + 1];
    var waiting := set j | j in w;
    var placed := PlacedEnd(x, s, u, a);
    Distinct(x, s, u, a, w);
    DistinctSize(w);
    forall j | j in waiting ensures j in HeadsBelow(x.t, 2 * x.t[u[a]] + 2) && j !in placed {
      WaitingBelow(x, s, u, a, j);
    }
    Gap(waiting, placed, HeadsBelow(x.t, 2 * x.t[u[a]] + 2));
  }

  lemma Gap(waiting: set<int>, placed: set<int>, below: set<int>)
    requires waiting <= below - placed && placed <= below
    ensures |waiting| <= |below| - |placed|
  {
    SubsetSize(waiting, below - placed);
    assert below == placed + (below - placed);
  }

  lemma Distinct(x: Ctx, s: Scan, u: seq<int>, a: nat, w: seq<int>)
    requires x.Valid() && Spread(x, s, u, a + 1) && a < |u| && w == u[..a + 1]
    ensures forall i, k :: 0 <= i < k < |w| ==> w[i] != w[k]
  {
  }

  /** The placed suffixes of the bucket of `u[a]`. */
  lemma PlacedEnd(x: Ctx, s: Scan, u: seq<int>, a: nat) returns (placed: set<int>)
    requires x.Valid() && IsBounds(x.t, x.textMax, x.bd) && Spread(x, s, u, a + 1) && a < |u|
    ensures var c := x.t[u[a]];
            && placed <= HeadsBelow(x.t, 2 * c + 2)
            && |HeadsBelow(x.t, 2 * c + 2)| - |placed| == s.bk[c]
    ensures forall j :: j in placed ==> 0 <= j < |x.t| && s.at[j] != -1
  {
    hide IsBounds, Spread, HeadsBelow, Inverse, ScanS.Shape;
    var c := x.t[u[a]];
    var lo, hi := s.bk[c], x.bd[2 * c + 2];
    SpreadEnd(x, s, u, a + 1, c);
    placed := set p | lo <= p < hi :: s.A[p];
    ImageSize(s.A, s.at, lo, hi);
    forall j | j in placed ensures j in HeadsBelow(x.t, 2 * c + 2) && 0 <= j < |x.t| && s.at[j] != -1 {
      var p :| lo <= p < hi && s.A[p] == j;
      EndAt(x, s, c, p);
    }
  }

  /** The S-half of bucket `c` is filled from `bk[c]` to its end, which is where the larger
      symbols start. */
  lemma SpreadEnd(x: Ctx, s: Scan, u: seq<int>, a: nat, c: int)
    requires x.Valid() && IsBounds(x.t, x.textMax, x.bd) && Spread(x, s, u, a) && 0 <= c < x.textMax
    ensures |x.bd| == 2 * x.textMax + 1 && ScanS.Shape(x, s) && Inverse(s.A, s.at)
    ensures 0 <= s.bk[c] <= x.bd[2 * c + 2] <= |x.t| && x.bd[2 * c + 2] == |HeadsBelow(x.t, 2 * c + 2)|
    ensures forall p :: s.bk[c] <= p < x.bd[2 * c + 2] ==> s.A[p] != -1
  {
    hide HeadsBelow, SortedLms, Ranks, Ranked;
    TabulatesAt(x.t, x.bd, |x.bd|, 2 * c + 2);
  }

  lemma EndAt(x: Ctx, s: Scan, c: int, p: nat)
    requires x.Valid() && ScanS.Shape(x, s) && 0 <= c < x.textMax
    requires s.bk[c] <= p < x.bd[2 * c + 2] && p < |x.t| && s.A[p] != -1
    ensures var j := s.A[p]; 0 <= j < |x.t| && s.at[j] == p && j in HeadsBelow(x.t, 2 * c + 2)
  {
    HalfUnique(x, p, s.A[p], 2 * c + 1);
  }

  lemma WaitingBelow(x: Ctx, s: Scan, u: seq<int>, a: nat, j: int)
    requires x.Valid() && Spread(x, s, u, a + 1) && a < |u| && j in u[..a + 1]
    ensures 0 <= j < |x.t| && s.at[j] == -1 && j in HeadsBelow(x.t, 2 * x.t[u[a]] + 2)
  {
    var i :| 0 <= i < a + 1 && u[i] == j;
    if i < a {
      assert Less(x.t, j, u[a]);
    }
  }

  /** The state of the loop: cells from `i` on are written; the `a`-th suffix is to be written
      at index `b`, or all have been; the suffixes before it wait in the first `a` cells. */
  ghost predicate Expanding(x: Ctx, s: Scan, u: seq<int>, sa: seq<int>, i: int, a: int, b: int)
    requires x.Valid()
    ensures Expanding(x, s, u, sa, i, a, b) ==> |sa| == |x.t| && 0 <= a < |u| && a <= b < |x.t|
    ensures Expanding(x, s, u, sa, i, a, b) ==> |s.A| == |s.at| == |x.t| && |s.bk| == x.textMax
  {
    && 0 <= i <= |x.t| == |sa| && 0 <= a < |u| && Spread(x, s, u, a)
    && a <= b < |x.t| && s.A[b] == u[a] && (b < i || a == 0)
    && (forall p :: 0 <= p < i && p != b ==> s.A[p] == -1)
    && (forall p :: i <= p < |x.t| ==> sa[p] == if s.A[p] == -1 then 0 else s.A[p])
    && (forall p :: 0 <= p < a ==> sa[p] == u[p])
  }

  lemma ExpandBegin(x: Ctx, u: seq<int>, sa: seq<int>)
    requires x.Valid() && IsBounds(x.t, x.textMax, x.bd)
    requires SortedLms(x.t, u) && x.rk == Ranks(x.t, u) && x.from == 0
    requires |sa| == |x.t| && 0 < |u| <= |sa| && sa[..|u|] == u
    ensures var s := Scan(Nowhere(|x.t|), Nowhere(|x.t|), SEnds(x)); var k := u[|u| - 1];
            && ScanS.Room(x, s, k)
            && Expanding(x, ScanS.Place(x, s, k), u, sa, |x.t|, |u| - 1, s.bk[x.t[k]] - 1)
  {
    SpreadNone(x, u);
    var s := Scan(Nowhere(|x.t|), Nowhere(|x.t|), SEnds(x));
    SpreadPlace(x, s, u, |u| - 1);
  }

  lemma ExpandSkip(x: Ctx, s: Scan, u: seq<int>, sa: seq<int>, i: nat, a: int, b: int)
    requires x.Valid() && i < |x.t| && Expanding(x, s, u, sa, i + 1, a, b) && i != b
    ensures Expanding(x, s, u, sa[i := 0], i, a, b)
  {
    hide Spread;
  }

  lemma ExpandLast(x: Ctx, s: Scan, u: seq<int>, sa: seq<int>, i: nat)
    requires x.Valid() && i < |x.t| && Expanding(x, s, u, sa, i + 1, 0, i)
    ensures Expanding(x, s, u, sa[i := u[0]], i, 0, i)
  {
    hide Ranked, ScanS.Shape, Less, IsLms;
  }

  lemma ExpandNext(x: Ctx, s: Scan, u: seq<int>, sa: seq<int>, i: nat, a: int)
    requires x.Valid() && IsBounds(x.t, x.textMax, x.bd)
    requires i < |x.t| && 0 < a && Expanding(x, s, u, sa, i + 1, a, i)
    ensures sa[a - 1] == sa[i := u[a]][a - 1] == u[a - 1] && 0 < u[a - 1] < |x.t| && ScanS.Room(x, s, u[a - 1])
    ensures Expanding(x, ScanS.Place(x, s, u[a - 1]), u, sa[i := u[a]], i, a - 1, s.bk[x.t[u[a - 1]]] - 1)
  {
    hide Spread, IsBounds;
    assert s.A[i] == u[a];
    SpreadPlace(x, s, u, a - 1);
    var k := u[a - 1];
    ExpandWrite(x, s, ScanS.Place(x, s, k), u, sa, i, a, s.bk[x.t[k]] - 1);
  }

  lemma ExpandWrite(x: Ctx, s: Scan, s': Scan, u: seq<int>, sa: seq<int>, i: nat, a: int, b: int)
    requires x.Valid() && i < |x.t| && 0 < a && Expanding(x, s, u, sa, i + 1, a, i)
    requires Spread(x, s', u, a - 1) && a - 1 <= b < i && s'.A == s.A[b := u[a - 1]]
    ensures Expanding(x, s', u, sa[i := u[a]], i, a - 1, b)
  {
    hide Spread;
  }

  /** In the end the LMS suffixes are where the left-to-right scan expects them. */
  lemma ExpandDone(x: Ctx, s: Scan, u: seq<int>, sa: seq<int>, a: int, b: int)
    requires x.Valid() && Expanding(x, s, u, sa, 0, a, b)
    ensures ScanL.Seeded(x, s.(bk := LStarts(x))) && Holds(sa, s.A)
  {
    forall j | 0 <= j < |x.t| ensures s.at[j] != -1 <==> IsLms(x.t, j) && 0 < j {
      if IsLms(x.t, j) {
        var i := IndexOf(x.t, u, j);
      }
    }
    ToScan(x, s.(bk := LStarts(x)));
  }
}
