/** The right-to-left scan of induced sorting, on the abstract array. Each position `j`
    met by the scan whose left neighbour is of type S puts that neighbour at the next free
    index, from the right, of the S-half of its bucket. */
module ScanS {
  import opened Suffixes
  import opened LmsTypes
  import opened Buckets
  import ScanL

  ghost predicate Shape(x: Ctx, s: Scan)
    requires x.Valid()
    ensures Shape(x, s) ==> |s.A| == |s.at| == |x.t| && |s.bk| == x.textMax
  {
    && |s.A| == |x.t| && |s.bk| == x.textMax && Inverse(s.A, s.at)
    && (forall p :: 0 <= p < |x.t| && s.A[p] != -1 ==> x.from <= s.A[p] && x.InHalf(p, s.A[p]))
    && Filled(x, s)
  }

  /** The S-half of bucket `c` is filled exactly from `bk[c]` on. */
  ghost predicate Filled(x: Ctx, s: Scan)
    requires x.Valid() && |s.A| == |x.t| && |s.bk| == x.textMax
  {
    forall c :: 0 <= c < x.textMax ==>
      && x.bd[2 * c + 1] <= s.bk[c] <= x.bd[2 * c + 2]
      && (forall p :: s.bk[c] <= p < x.bd[2 * c + 2] ==> s.A[p] != -1)
      && (forall p :: x.bd[2 * c + 1] <= p < s.bk[c] ==> s.A[p] == -1)
  }

  ghost predicate Sorted(x: Ctx, A: seq<int>)
    requires x.Valid()
  {
    forall p, q :: 0 <= p < q < |A| && 0 <= A[p] < |x.t| && 0 <= A[q] < |x.t| ==> !SLess(x.t, x.rk, A[q], A[p])
  }

  /** A placed S-position was induced by its right neighbour, met at or after index `i`. */
  ghost predicate Caused(x: Ctx, at: seq<int>, k: nat, i: nat)
    requires |at| == |x.t| && k < |x.t|
  {
    at[k] != -1 && IsS(x.t, k) ==> i <= at[k + 1]
  }

  /** A position met at or after index `i` has induced its S-type left neighbour. */
  ghost predicate Acted(x: Ctx, at: seq<int>, j: nat, i: nat)
    requires |at| == |x.t| && j < |x.t|
  {
    0 < j && i <= at[j] && IsS(x.t, j - 1) ==> at[j - 1] != -1
  }

  /** What the scan has done down to index `i`. */
  ghost predicate Progress(x: Ctx, at: seq<int>, i: nat)
    requires |at| == |x.t|
  {
    && (forall k :: 0 <= k < |x.t| ==> Caused(x, at, k, i))
    && (forall j :: 0 <= j < |x.t| ==> Acted(x, at, j, i))
    && (forall k :: x.from <= k < |x.t| && !IsS(x.t, k) ==> at[k] != -1)
  }

  ghost predicate Inv(x: Ctx, s: Scan, i: nat)
    requires x.Valid()
    ensures Inv(x, s, i) ==> |s.A| == |s.at| == |x.t| && |s.bk| == x.textMax
  {
    Shape(x, s) && Sorted(x, s.A) && Progress(x, s.at, i)
  }

  ghost function Place(x: Ctx, s: Scan, k: nat): Scan
    requires k < |x.t| && |s.A| == |s.at| == |x.t| && 0 <= x.t[k] < |s.bk| && 0 < s.bk[x.t[k]] <= |x.t|
  {
    var c := x.t[k];
    Scan(s.A[s.bk[c] - 1 := k], s.at[k := s.bk[c] - 1], s.bk[c := s.bk[c] - 1])
  }

  ghost predicate Room(x: Ctx, s: Scan, k: nat)
    requires x.Valid() && k < |x.t| && |s.bk| == x.textMax
  {
    0 <= x.bd[2 * x.t[k] + 1] < s.bk[x.t[k]] <= x.bd[2 * x.t[k] + 2] <= |x.t|
  }

  lemma PlaceRoom(x: Ctx, s: Scan, k: nat)
    requires x.Valid() && IsBounds(x.t, x.textMax, x.bd) && Shape(x, s)
    requires k < |x.t| && IsS(x.t, k) && s.at[k] == -1
    ensures Room(x, s, k)
  {
    var c := x.t[k];
    assert x.bd[2 * c + 1] <= x.bd[2 * c + 2];
    forall p | s.bk[c] <= p < x.bd[2 * c + 2] ensures s.A[p] != -1 && Head(x.t, s.A[p]) == 2 * c + 1 {
      HalfUnique(x, p, s.A[p], 2 * c + 1);
    }
    RoomLeft(x, s.A, s.at, 2 * c + 1, s.bk[c], x.bd[2 * c + 2], k);
  }

  lemma PlaceShape(x: Ctx, s: Scan, k: nat)
    requires x.Valid() && Shape(x, s) && x.from <= k < |x.t| && Room(x, s, k)
    requires IsS(x.t, k) && s.at[k] == -1
    ensures Shape(x, Place(x, s, k))
  {
    PlaceFilled(x, s, k);
  }

  lemma PlaceFilled(x: Ctx, s: Scan, k: nat)
    requires x.Valid() && |s.A| == |x.t| == |s.at| && |s.bk| == x.textMax && Filled(x, s)
    requires k < |x.t| && Room(x, s, k)
    ensures Filled(x, Place(x, s, k))
  {
    var d, s' := x.t[k], Place(x, s, k);
    forall c | 0 <= c < x.textMax
      ensures x.bd[2 * c + 1] <= s'.bk[c] <= x.bd[2 * c + 2]
      ensures forall p :: s'.bk[c] <= p < x.bd[2 * c + 2] ==> s'.A[p] != -1
      ensures forall p :: x.bd[2 * c + 1] <= p < s'.bk[c] ==> s'.A[p] == -1
    {
      assert c < d ==> x.bd[2 * c + 2] <= x.bd[2 * d + 1];
      assert d < c ==> x.bd[2 * d + 2] <= x.bd[2 * c + 1];
    }
  }

  /** Placing `k` keeps the array sorted, given that nothing placed behind it in its half
      belongs before it. */
  lemma PlaceSorted(x: Ctx, s: Scan, k: nat)
    requires x.Valid() && Shape(x, s) && Sorted(x, s.A)
    requires k < |x.t| && IsS(x.t, k) && Room(x, s, k)
    requires forall m :: 0 <= m < |x.t| && s.at[m] != -1 && Head(x.t, m) == Head(x.t, k) ==>
                           !SLess(x.t, x.rk, m + 1, k + 1)
    ensures Sorted(x, Place(x, s, k).A)
  {
    hide IsS, SLess, Filled;
    var b, A' := s.bk[x.t[k]] - 1, Place(x, s, k).A;
    forall p, q | 0 <= p < q < |x.t| && 0 <= A'[p] < |x.t| && 0 <= A'[q] < |x.t|
      ensures !SLess(x.t, x.rk, A'[q], A'[p])
    {
      if p == b {
        AfterPlaced(x, s, k, q);
      } else if q == b {
        BeforePlaced(x, s, k, p);
      }
    }
  }

  lemma AfterPlaced(x: Ctx, s: Scan, k: nat, q: nat)
    requires x.Valid() && Shape(x, s) && k < |x.t| && IsS(x.t, k) && Room(x, s, k)
    requires s.bk[x.t[k]] <= q < |x.t| && s.A[q] != -1
    requires Head(x.t, s.A[q]) == Head(x.t, k) ==> !SLess(x.t, x.rk, s.A[q] + 1, k + 1)
    ensures !SLess(x.t, x.rk, s.A[q], k)
  {
    HeadsByIndex(x, s.bk[x.t[k]] - 1, k, q, s.A[q]);
  }

  lemma BeforePlaced(x: Ctx, s: Scan, k: nat, p: nat)
    requires x.Valid() && Shape(x, s) && k < |x.t| && IsS(x.t, k) && Room(x, s, k)
    requires p < s.bk[x.t[k]] - 1 && s.A[p] != -1
    ensures !SLess(x.t, x.rk, k, s.A[p])
  {
    HeadsByIndex(x, p, s.A[p], s.bk[x.t[k]] - 1, k);
    assert Head(x.t, s.A[p]) != Head(x.t, k);
  }

  /** One step: the scan meets `j` at index `i` and places its left neighbour, which lands
      strictly to the left of `i` and inside its own bucket half. */
  lemma Step(x: Ctx, s: Scan, i: nat)
    requires x.Valid() && IsBounds(x.t, x.textMax, x.bd) && Inv(x, s, i + 1)
    requires i < |x.t| && s.A[i] > 0 && IsS(x.t, s.A[i] - 1)
    ensures var k := s.A[i] - 1;
            && Room(x, s, k) && s.bk[x.t[k]] <= i && s.at[k] == -1 && x.from <= k
            && Inv(x, Place(x, s, k), i)
  {
    StepNew(x, s, i);
    PlaceRoom(x, s, s.A[i] - 1);
    StepInv(x, s, i);
  }

  lemma StepInv(x: Ctx, s: Scan, i: nat)
    requires x.Valid() && Inv(x, s, i + 1)
    requires i < |x.t| && s.A[i] > 0 && IsS(x.t, s.A[i] - 1) && Room(x, s, s.A[i] - 1)
    ensures s.bk[x.t[s.A[i] - 1]] <= i && Inv(x, Place(x, s, s.A[i] - 1), i)
  {
    hide Progress, Sorted, Shape, IsS;
    var k := s.A[i] - 1;
    StepNew(x, s, i);
    StepLandsLeft(x, s, i);
    PlaceShape(x, s, k);
    assert Sorted(x, Place(x, s, k).A) by {
      StepBehind(x, s, i);
      PlaceSorted(x, s, k);
    }
    StepProgress(x, s.at, i, s.A[i], s.bk[x.t[k]] - 1);
  }

  lemma StepNew(x: Ctx, s: Scan, i: nat)
    requires x.Valid() && Shape(x, s) && Progress(x, s.at, i + 1)
    requires i < |x.t| && s.A[i] > 0 && IsS(x.t, s.A[i] - 1)
    ensures s.A[i] < |x.t| && forall m :: 0 <= m < |s.at| && s.at[m] == i ==> m == s.A[i]
    ensures s.at[s.A[i]] == i && s.at[s.A[i] - 1] == -1 && x.from <= s.A[i] - 1
  {
    assert Caused(x, s.at, s.A[i] - 1, i + 1);
  }

  /** Whatever shares the half of the new position was induced by something met earlier. */
  lemma StepBehind(x: Ctx, s: Scan, i: nat)
    requires x.Valid() && Shape(x, s) && Sorted(x, s.A) && Progress(x, s.at, i + 1)
    requires i < |x.t| && s.A[i] > 0 && IsS(x.t, s.A[i] - 1)
    ensures forall m :: 0 <= m < |x.t| && s.at[m] != -1 && Head(x.t, m) == Head(x.t, s.A[i] - 1) ==>
                          !SLess(x.t, x.rk, m + 1, s.A[i])
  {
    forall m | 0 <= m < |x.t| && s.at[m] != -1 && Head(x.t, m) == Head(x.t, s.A[i] - 1)
      ensures !SLess(x.t, x.rk, m + 1, s.A[i])
    {
      assert Caused(x, s.at, m, i + 1);
    }
  }

  lemma StepLandsLeft(x: Ctx, s: Scan, i: nat)
    requires x.Valid() && Shape(x, s)
    requires i < |x.t| && s.A[i] > 0 && IsS(x.t, s.A[i] - 1)
    ensures s.bk[x.t[s.A[i] - 1]] <= i
  {
    var j := s.A[i];
    var k := j - 1;
    if x.t[k] == x.t[j] {
      assert Head(x.t, j) == 2 * x.t[k] + 1;
    } else {
      assert x.bd[2 * x.t[k] + 2] <= x.bd[Head(x.t, j)];
    }
  }

  lemma StepProgress(x: Ctx, at: seq<int>, i: nat, j: nat, b: nat)
    requires |at| == |x.t| && Progress(x, at, i + 1)
    requires 0 < j < |x.t| && at[j] == i && IsS(x.t, j - 1) && at[j - 1] == -1 && b < i
    requires forall m :: 0 <= m < |at| && at[m] == i ==> m == j
    ensures Progress(x, at[j - 1 := b], i)
  {
    var at' := at[j - 1 := b];
    forall k | 0 <= k < |x.t| ensures Caused(x, at', k, i) {
      assert Caused(x, at, k, i + 1);
    }
    forall m | 0 <= m < |x.t| ensures Acted(x, at', m, i) {
      assert Acted(x, at, m, i + 1);
    }
  }

  /** The scan passes over an index that is empty or whose left neighbour is not of type S. */
  lemma Skip(x: Ctx, s: Scan, i: nat)
    requires x.Valid() && Inv(x, s, i + 1) && i < |x.t|
    requires s.A[i] > 0 ==> !IsS(x.t, s.A[i] - 1)
    ensures Inv(x, s, i)
  {
    forall k | 0 <= k < |x.t| ensures Caused(x, s.at, k, i) {
      assert Caused(x, s.at, k, i + 1);
    }
    forall m | 0 <= m < |x.t| ensures Acted(x, s.at, m, i) {
      assert Acted(x, s.at, m, i + 1);
    }
  }

  /** The state the scan starts from: the L-positions of a finished left-to-right scan. */
  ghost function Handover(x: Ctx, s: Scan): (r: Scan)
    requires x.Valid() && ScanL.Shape(x, s)
    ensures |r.A| == |r.at| == |x.t| && |r.bk| == x.textMax
    ensures forall p :: 0 <= p < |x.t| ==>
              r.A[p] == if s.A[p] != -1 && !IsS(x.t, s.A[p]) then s.A[p] else -1
    ensures forall j :: 0 <= j < |x.t| ==> r.at[j] == if IsS(x.t, j) then -1 else s.at[j]
    ensures forall c :: 0 <= c < x.textMax ==> r.bk[c] == x.bd[2 * c + 2]
  {
    Scan(seq(|x.t|, p requires 0 <= p < |x.t| => if s.A[p] != -1 && !IsS(x.t, s.A[p]) then s.A[p] else -1),
         seq(|x.t|, j requires 0 <= j < |x.t| => if IsS(x.t, j) then -1 else s.at[j]),
         seq(x.textMax, c requires 0 <= c < x.textMax => x.bd[2 * c + 2]))
  }

  lemma Begin(x: Ctx, s: Scan)
    requires x.Valid() && ScanL.Inv(x, s, |x.t|)
    ensures Inv(x, Handover(x, s), |x.t|)
  {
    var r := Handover(x, s);
    forall k | x.from <= k < |x.t| && !IsS(x.t, k) ensures r.at[k] != -1 {
      ScanL.AllPlaced(x, s, k);
    }
    BeginShape(x, s);
    var n := |x.t|;
    forall k | 0 <= k < |x.t| ensures Caused(x, r.at, k, n) { }
    forall j | 0 <= j < |x.t| ensures Acted(x, r.at, j, n) { }
  }

  lemma BeginShape(x: Ctx, s: Scan)
    requires x.Valid() && ScanL.Shape(x, s)
    ensures Shape(x, Handover(x, s))
  {
    var r := Handover(x, s);
    forall c | 0 <= c < x.textMax
      ensures forall p :: x.bd[2 * c + 1] <= p < r.bk[c] ==> r.A[p] == -1
    {
      forall p | x.bd[2 * c + 1] <= p < x.bd[2 * c + 2] ensures r.A[p] == -1 {
        if s.A[p] != -1 {
          HalfUnique(x, p, s.A[p], 2 * c + 1);
        }
      }
    }
  }

  /** After the scan every position from `from` on is in place. */
  lemma {:induction false} AllPlaced(x: Ctx, s: Scan, k: nat)
    requires x.Valid() && Inv(x, s, 0)
    requires x.from <= k < |x.t|
    ensures s.at[k] != -1
    decreases |x.t| - k
  {
    if IsS(x.t, k) {
      AllPlaced(x, s, k + 1);
      assert Acted(x, s.at, k + 1, 0);
    }
  }

  // ----- Nothing stale is met -----

  /** All indices from `i` on are filled. */
  ghost predicate Dense(A: seq<int>, i: nat)
  {
    forall p :: i <= p < |A| ==> A[p] != -1
  }

  /** If the scan met an empty index in the S-half of `c`, everything in that half would
      already have been induced. */
  lemma {:induction false} InducedBefore(x: Ctx, s: Scan, i: nat, c: nat, k: nat)
    requires x.Valid() && IsBounds(x.t, x.textMax, x.bd) && x.from == 0
    requires i < |x.t| && Inv(x, s, i + 1) && Dense(s.A, i + 1)
    requires c < x.textMax && x.bd[2 * c + 1] <= i < x.bd[2 * c + 2] && s.A[i] == -1
    requires k < |x.t| && Head(x.t, k) == 2 * c + 1
    ensures s.at[k] != -1
    decreases |x.t| - k
  {
    var j := k + 1;
    if x.t[j] == x.t[k] {
      InducedBefore(x, s, i, c, j);
      InducedFromSame(x, s, i, c, j);
    } else {
      InducedFromLater(x, s, i, c, j);
    }
    assert Acted(x, s.at, j, i + 1);
  }

  lemma InducedFromSame(x: Ctx, s: Scan, i: nat, c: nat, j: nat)
    requires x.Valid() && Shape(x, s)
    requires c < x.textMax && i < |x.t| && x.bd[2 * c + 1] <= i < x.bd[2 * c + 2] && s.A[i] == -1
    requires j < |x.t| && Head(x.t, j) == 2 * c + 1 && s.at[j] != -1
    ensures i < s.at[j]
  {
    assert x.InHalf(s.at[j], s.A[s.at[j]]);
    assert i < s.bk[c];
  }

  lemma InducedFromLater(x: Ctx, s: Scan, i: nat, c: nat, j: nat)
    requires x.Valid() && IsBounds(x.t, x.textMax, x.bd) && x.from == 0
    requires i < |x.t| && Inv(x, s, i + 1) && Dense(s.A, i + 1)
    requires c < x.textMax && i < x.bd[2 * c + 2]
    requires j < |x.t| && c < x.t[j]
    ensures i < s.at[j]
  {
    var g := Head(x.t, j);
    assert x.bd[2 * c + 2] <= x.bd[g];
    if s.at[j] == -1 {
      forall p | x.bd[g] <= p < x.bd[g + 1] ensures s.A[p] != -1 && Head(x.t, s.A[p]) == g {
        HalfUnique(x, p, s.A[p], g);
      }
      assert x.bd[g] <= x.bd[g + 1] <= |x.t|;
      RoomLeft(x, s.A, s.at, g, x.bd[g], x.bd[g + 1], j);
    } else {
      assert x.InHalf(s.at[j], s.A[s.at[j]]);
    }
  }

  /** A scan over the whole text only meets filled indices, so what the array held at other
      indices of the S-halves before is never looked at. */
  lemma DenseNext(x: Ctx, s: Scan, i: nat)
    requires x.Valid() && IsBounds(x.t, x.textMax, x.bd) && x.bd[0] == 0 && x.bd[2 * x.textMax] == |x.t|
    requires x.from == 0 && i < |x.t| && Inv(x, s, i + 1) && Dense(s.A, i + 1)
    ensures s.A[i] != -1
  {
    if s.A[i] == -1 {
      var h := HalfOf(x, i);
      var k := Hole(x, s.A, s.at, h, i);
      if IsS(x.t, k) {
        InducedBefore(x, s, i, x.t[k], k);
      }
    }
  }

  /** Started from LMS positions ranked by their suffixes, the two scans sort all suffixes. */
  lemma Sorts(x: Ctx, s: Scan)
    requires x.Valid() && x.from == 0 && RankComplete(x.t, x.rk) && Inv(x, s, 0) && Dense(s.A, 0)
    ensures IsSuffixArray(x.t, s.A)
  {
    forall j | 0 <= j < |x.t| ensures j in s.A {
      AllPlaced(x, s, j);
      assert s.A[s.at[j]] == j;
    }
    forall p, q | 0 <= p < q < |s.A| ensures Less(x.t, s.A[p], s.A[q]) {
      assert s.at[s.A[p]] == p && s.at[s.A[q]] == q;
      if !Less(x.t, s.A[p], s.A[q]) {
        LessTotal(x.t, s.A[p], s.A[q]);
        SLessComplete(x.t, x.textMax, x.rk, s.A[q], s.A[p]);
      }
    }
  }
}
