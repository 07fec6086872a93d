/** The left-to-right scan of induced sorting, on the abstract array. Each position `j`
    met by the scan whose left neighbour is of type L puts that neighbour at the next free
    index of the L-half of its bucket. */
module ScanL {
  import opened LmsTypes
  import opened Buckets

  /** The positions taking part in a scan that starts from the LMS positions after `from`:
      those, and the L-positions from `from` on. */
  ghost predicate Wanted(x: Ctx, j: int)
  {
    x.from <= j < |x.t| && IsItem(x.t, j) && (j == x.from ==> !IsS(x.t, j))
  }

  ghost predicate Shape(x: Ctx, s: Scan)
    requires x.Valid()
    ensures Shape(x, s) ==> |s.A| == |s.at| == |x.t| && |s.bk| == x.textMax
  {
    && |s.A| == |x.t| && |s.bk| == x.textMax && Inverse(s.A, s.at)
    && (forall p :: 0 <= p < |x.t| && s.A[p] != -1 ==> Wanted(x, s.A[p]) && x.InHalf(p, s.A[p]))
    && Filled(x, s)
  }

  /** The L-half of bucket `c` is filled exactly up to `bk[c]`. */
  ghost predicate Filled(x: Ctx, s: Scan)
    requires x.Valid() && |s.A| == |x.t| && |s.bk| == x.textMax
  {
    forall c :: 0 <= c < x.textMax ==>
      && x.bd[2 * c] <= s.bk[c] <= x.bd[2 * c + 1]
      && (forall p :: x.bd[2 * c] <= p < s.bk[c] ==> s.A[p] != -1)
      && (forall p :: s.bk[c] <= p < x.bd[2 * c + 1] ==> s.A[p] == -1)
  }

  ghost predicate Sorted(x: Ctx, A: seq<int>)
    requires x.Valid()
  {
    forall p, q :: 0 <= p < q < |A| && 0 <= A[p] < |x.t| && 0 <= A[q] < |x.t| ==> !LLess(x.t, x.rk, A[q], A[p])
  }

  /** A placed L-position was induced by its right neighbour, met before index `i`. */
  ghost predicate Caused(x: Ctx, at: seq<int>, k: nat, i: nat)
    requires |at| == |x.t| && k < |x.t|
  {
    at[k] != -1 && !IsS(x.t, k) && k + 1 < |x.t| ==> 0 <= at[k + 1] < i
  }

  /** A position met before index `i` has induced its L-type left neighbour. */
  ghost predicate Acted(x: Ctx, at: seq<int>, j: nat, i: nat)
    requires |at| == |x.t| && j < |x.t|
  {
    0 < j && 0 <= at[j] < i && !IsS(x.t, j - 1) ==> at[j - 1] != -1
  }

  /** What the scan has done up to index `i`. */
  ghost predicate Progress(x: Ctx, at: seq<int>, i: nat)
    requires |at| == |x.t|
  {
    && (forall k :: 0 <= k < |x.t| ==> Caused(x, at, k, i))
    && (forall j :: 0 <= j < |x.t| ==> Acted(x, at, j, i))
    && (forall j :: IsLms(x.t, j) && x.from < j ==> at[j] != -1)
  }

  ghost predicate Inv(x: Ctx, s: Scan, i: nat)
    requires x.Valid()
    ensures Inv(x, s, i) ==> |s.A| == |s.at| == |x.t| && |s.bk| == x.textMax
  {
    Shape(x, s) && Sorted(x, s.A) && Progress(x, s.at, i) && s.at[|x.t| - 1] != -1
  }

  ghost function Place(x: Ctx, s: Scan, k: nat): Scan
    requires k < |x.t| && |s.A| == |s.at| == |x.t| && 0 <= x.t[k] < |s.bk| && 0 <= s.bk[x.t[k]] < |x.t|
  {
    var c := x.t[k];
    Scan(s.A[s.bk[c] := k], s.at[k := s.bk[c]], s.bk[c := s.bk[c] + 1])
  }

  lemma PlaceRoom(x: Ctx, s: Scan, k: nat)
    requires x.Valid() && IsBounds(x.t, x.textMax, x.bd) && Shape(x, s)
    requires k < |x.t| && !IsS(x.t, k) && s.at[k] == -1
    ensures Room(x, s, k)
  {
    var c := x.t[k];
    assert x.bd[2 * c] <= x.bd[2 * c + 1];
    forall p | x.bd[2 * c] <= p < s.bk[c] ensures s.A[p] != -1 && Head(x.t, s.A[p]) == 2 * c {
      HalfUnique(x, p, s.A[p], 2 * c);
    }
    RoomLeft(x, s.A, s.at, 2 * c, x.bd[2 * c], s.bk[c], k);
  }

  ghost predicate Room(x: Ctx, s: Scan, k: nat)
    requires x.Valid() && k < |x.t| && |s.bk| == x.textMax
  {
    0 <= x.bd[2 * x.t[k]] <= s.bk[x.t[k]] < x.bd[2 * x.t[k] + 1] <= |x.t|
  }

  lemma PlaceShape(x: Ctx, s: Scan, k: nat)
    requires x.Valid() && Shape(x, s) && k < |x.t| && Room(x, s, k)
    requires Wanted(x, k) && !IsS(x.t, k) && s.at[k] == -1
    ensures Shape(x, Place(x, s, k))
  {
    PlaceFilled(x, s, k);
  }

  lemma PlaceFilled(x: Ctx, s: Scan, k: nat)
    requires x.Valid() && |s.A| == |x.t| == |s.at| && |s.bk| == x.textMax && Filled(x, s)
    requires k < |x.t| && Room(x, s, k)
    ensures Filled(x, Place(x, s, k))
  {
    var d, s' := x.t[k], Place(x, s, k);
    forall c | 0 <= c < x.textMax
      ensures x.bd[2 * c] <= s'.bk[c] <= x.bd[2 * c + 1]
      ensures forall p :: x.bd[2 * c] <= p < s'.bk[c] ==> s'.A[p] != -1
      ensures forall p :: s'.bk[c] <= p < x.bd[2 * c + 1] ==> s'.A[p] == -1
    {
      assert c < d ==> x.bd[2 * c + 1] <= x.bd[2 * d];
      assert d < c ==> x.bd[2 * d + 1] <= x.bd[2 * c];
    }
  }

  /** Placing `k` keeps the array sorted, given that nothing placed before it in its half
      belongs after it. */
  lemma PlaceSorted(x: Ctx, s: Scan, k: nat)
    requires x.Valid() && Shape(x, s) && Sorted(x, s.A)
    requires k < |x.t| && !IsS(x.t, k) && Room(x, s, k)
    requires forall m :: 0 <= m < |x.t| && s.at[m] != -1 && Head(x.t, m) == Head(x.t, k) ==>
                           !LLess(x.t, x.rk, k + 1, m + 1)
    ensures Sorted(x, Place(x, s, k).A)
  {
    hide IsS, LLess, Filled;
    var b, A' := s.bk[x.t[k]], Place(x, s, k).A;
    forall p, q | 0 <= p < q < |x.t| && 0 <= A'[p] < |x.t| && 0 <= A'[q] < |x.t|
      ensures !LLess(x.t, x.rk, A'[q], A'[p])
    {
      if p == b {
        AfterPlaced(x, s, k, q);
      } else if q == b {
        BeforePlaced(x, s, k, p);
      }
    }
  }

  lemma BeforePlaced(x: Ctx, s: Scan, k: nat, p: nat)
    requires x.Valid() && Shape(x, s) && k < |x.t| && !IsS(x.t, k) && Room(x, s, k)
    requires p < s.bk[x.t[k]] && s.A[p] != -1
    requires Head(x.t, s.A[p]) == Head(x.t, k) ==> !LLess(x.t, x.rk, k + 1, s.A[p] + 1)
    ensures !LLess(x.t, x.rk, k, s.A[p])
  {
    HeadsByIndex(x, p, s.A[p], s.bk[x.t[k]], k);
  }

  lemma AfterPlaced(x: Ctx, s: Scan, k: nat, q: nat)
    requires x.Valid() && Shape(x, s) && k < |x.t| && !IsS(x.t, k) && Room(x, s, k)
    requires s.bk[x.t[k]] < q < |x.t| && s.A[q] != -1
    ensures !LLess(x.t, x.rk, s.A[q], k)
  {
    HeadsByIndex(x, s.bk[x.t[k]], k, q, s.A[q]);
    assert Head(x.t, s.A[q]) != Head(x.t, k);
  }

  /** One step: the scan meets `j` at index `i` and places its left neighbour, which lands
      strictly to the right of `i` and inside its own bucket half. */
  lemma Step(x: Ctx, s: Scan, i: nat)
    requires x.Valid() && IsBounds(x.t, x.textMax, x.bd) && Inv(x, s, i)
    requires i < |x.t| && s.A[i] > 0 && !IsS(x.t, s.A[i] - 1)
    ensures var k := s.A[i] - 1;
            && Room(x, s, k) && i < s.bk[x.t[k]] && s.at[k] == -1 && x.from <= k
            && Inv(x, Place(x, s, k), i + 1)
  {
    StepNew(x, s, i);
    PlaceRoom(x, s, s.A[i] - 1);
    StepInv(x, s, i);
  }

  lemma StepInv(x: Ctx, s: Scan, i: nat)
    requires x.Valid() && Inv(x, s, i)
    requires i < |x.t| && s.A[i] > 0 && !IsS(x.t, s.A[i] - 1) && Room(x, s, s.A[i] - 1)
    ensures i < s.bk[x.t[s.A[i] - 1]] && Inv(x, Place(x, s, s.A[i] - 1), i + 1)
  {
    hide Progress, Sorted, Shape, IsS;
    var k := s.A[i] - 1;
    StepNew(x, s, i);
    StepLandsRight(x, s, i);
    PlaceShape(x, s, k);
    assert Sorted(x, Place(x, s, k).A) by {
      StepBehind(x, s, i);
      PlaceSorted(x, s, k);
    }
    StepProgress(x, s.at, i, s.A[i], s.bk[x.t[k]]);
  }

  lemma StepNew(x: Ctx, s: Scan, i: nat)
    requires x.Valid() && Shape(x, s) && Progress(x, s.at, i)
    requires i < |x.t| && s.A[i] > 0 && !IsS(x.t, s.A[i] - 1)
    ensures s.A[i] < |x.t| && forall m :: 0 <= m < |s.at| && s.at[m] == i ==> m == s.A[i]
    ensures s.at[s.A[i]] == i && s.at[s.A[i] - 1] == -1 && Wanted(x, s.A[i] - 1)
  {
    assert Caused(x, s.at, s.A[i] - 1, i);
  }

  /** Whatever shares the half of the new position was induced by something met earlier. */
  lemma StepBehind(x: Ctx, s: Scan, i: nat)
    requires x.Valid() && Shape(x, s) && Sorted(x, s.A) && Progress(x, s.at, i)
    requires i < |x.t| && s.A[i] > 0 && !IsS(x.t, s.A[i] - 1)
    ensures forall m :: 0 <= m < |x.t| && s.at[m] != -1 && Head(x.t, m) == Head(x.t, s.A[i] - 1) ==>
                          !LLess(x.t, x.rk, s.A[i], m + 1)
  {
    forall m | 0 <= m < |x.t| && s.at[m] != -1 && Head(x.t, m) == Head(x.t, s.A[i] - 1)
      ensures !LLess(x.t, x.rk, s.A[i], m + 1)
    {
      CausedBefore(x, s, i, m);
    }
  }

  lemma CausedBefore(x: Ctx, s: Scan, i: nat, m: nat)
    requires x.Valid() && Shape(x, s) && Sorted(x, s.A) && Progress(x, s.at, i)
    requires i < |x.t| && s.A[i] > 0 && m < |x.t| && s.at[m] != -1 && !IsS(x.t, m)
    ensures !LLess(x.t, x.rk, s.A[i], m + 1)
  {
    assert Caused(x, s.at, m, i);
  }

  lemma StepProgress(x: Ctx, at: seq<int>, i: nat, j: nat, b: nat)
    requires |at| == |x.t| && Progress(x, at, i)
    requires 0 < j < |x.t| && at[j] == i && !IsS(x.t, j - 1) && at[j - 1] == -1 && i < b
    requires forall m :: 0 <= m < |at| && at[m] == i ==> m == j
    ensures Progress(x, at[j - 1 := b], i + 1)
  {
    var at', i' := at[j - 1 := b], i + 1;
    forall k | 0 <= k < |x.t| ensures Caused(x, at', k, i') {
      assert Caused(x, at, k, i);
    }
    forall m | 0 <= m < |x.t| ensures Acted(x, at', m, i') {
      assert Acted(x, at, m, i);
    }
  }

  lemma StepLandsRight(x: Ctx, s: Scan, i: nat)
    requires x.Valid() && Shape(x, s)
    requires i < |x.t| && s.A[i] > 0 && !IsS(x.t, s.A[i] - 1)
    ensures i < s.bk[x.t[s.A[i] - 1]]
  {
    var j := s.A[i];
    var k := j - 1;
    if x.t[k] == x.t[j] {
      assert Head(x.t, j) == 2 * x.t[k];
      assert x.bd[2 * x.t[k]] <= i < x.bd[2 * x.t[k] + 1];
    } else {
      assert x.bd[Head(x.t, j) + 1] <= x.bd[2 * x.t[k]];
    }
  }

  /** The scan passes over an index that is empty or whose left neighbour is not of type L. */
  lemma Skip(x: Ctx, s: Scan, i: nat)
    requires x.Valid() && Inv(x, s, i) && i < |x.t|
    requires s.A[i] > 0 ==> IsS(x.t, s.A[i] - 1)
    ensures Inv(x, s, i + 1)
  {
    var i' := i + 1;
    forall k | 0 <= k < |x.t| ensures Caused(x, s.at, k, i') {
      assert Caused(x, s.at, k, i);
    }
    forall m | 0 <= m < |x.t| ensures Acted(x, s.at, m, i') {
      assert Acted(x, s.at, m, i);
    }
  }

  /** Only the starting positions are placed, sorted by rank. */
  ghost predicate Seeded(x: Ctx, s: Scan)
    requires x.Valid()
    ensures Seeded(x, s) ==> |s.A| == |s.at| == |x.t| && |s.bk| == x.textMax
  {
    && Shape(x, s) && Sorted(x, s.A)
    && (forall j :: 0 <= j < |x.t| ==> (s.at[j] != -1 <==> IsLms(x.t, j) && x.from < j))
  }

  /** The sentinel's left neighbour is placed before the scan proper. */
  lemma Begin(x: Ctx, s: Scan)
    requires x.Valid() && IsBounds(x.t, x.textMax, x.bd) && Seeded(x, s) && x.from < |x.t|
    ensures Room(x, s, |x.t| - 1) && Inv(x, Place(x, s, |x.t| - 1), 0)
  {
    var k := |x.t| - 1;
    assert Wanted(x, k);
    PlaceRoom(x, s, k);
    PlaceShape(x, s, k);
    PlaceSorted(x, s, k);
    BeginProgress(x, s);
  }

  lemma BeginProgress(x: Ctx, s: Scan)
    requires x.Valid() && Seeded(x, s) && 0 <= s.bk[x.t[|x.t| - 1]] < |x.t|
    ensures Progress(x, Place(x, s, |x.t| - 1).at, 0)
  {
  }

  lemma PlacedIndex(x: Ctx, s: Scan, j: nat)
    requires x.Valid() && Shape(x, s) && j < |x.t| && s.at[j] != -1
    ensures 0 <= s.at[j] < |x.t|
  {
  }

  /** After the scan every wanted L-position is in place. */
  lemma {:induction false} AllPlaced(x: Ctx, s: Scan, k: nat)
    requires x.Valid() && Inv(x, s, |x.t|)
    requires x.from <= k < |x.t| && !IsS(x.t, k)
    ensures s.at[k] != -1
    decreases |x.t| - k
  {
    hide Shape, Sorted, Caused;
    if k + 1 < |x.t| {
      if !IsS(x.t, k + 1) {
        AllPlaced(x, s, k + 1);
      } else {
        assert IsLms(x.t, k + 1);
      }
      PlacedIndex(x, s, k + 1);
      assert Acted(x, s.at, k + 1, |x.t|);
    }
  }
}
