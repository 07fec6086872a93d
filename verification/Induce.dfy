/** The four induced-sorting scans, in place: one array is input, output and work queue. */
module Induce {
  import opened Suffixes
  import opened LmsTypes
  import opened Buckets
  import opened Slices
  import opened Frequencies
  import opened Seeds
  import opened Cells
  import ScanL
  import ScanS

  /** Makes `c1` the bucket whose offset is held in a variable. */
  method Switch(text: Slice, textMax: nat, sa: Slice, w: Scratch, cB: int, b: int32, c1: int,
                ghost bk: seq<int>, ghost keep: set<Slice>)
    returns (b': int32)
    requires Ready(text, textMax, sa, w, keep) && Cached(w.bucket.View(), cB, b, bk) && 0 <= c1 < textMax
    modifies w.bucket.arr
    ensures Ready(text, textMax, sa, w, keep)
    ensures Cached(w.bucket.View(), c1, b', bk) && b' == bk[c1] && sa.View() == old(sa.View())
    ensures forall u :: u in keep ==> u.View() == old(u.View())
  {
    b' := b;
    if cB != c1 {
      SetBucket(text, textMax, sa, w, cB, b, keep);
      b' := w.bucket.Get(c1);
    }
  }

  lemma CacheNext(bucket: seq<int>, c: int, b: int, bk: seq<int>, b': int)
    requires Cached(bucket, c, b, bk)
    ensures |bk| == |bucket| && Cached(bucket, c, b', bk[c := b'])
  {
  }

  /** Puts `v` at the front of bucket `c1`. */
  method PutFront(text: Slice, textMax: nat, sa: Slice, w: Scratch, cB: int, b: int32, c1: int, v: int32,
                  ghost bk: seq<int>, ghost keep: set<Slice>)
    returns (b': int32)
    requires Ready(text, textMax, sa, w, keep) && Cached(w.bucket.View(), cB, b, bk)
    requires 0 <= c1 < textMax == |bk| && 0 <= bk[c1] < sa.len
    modifies sa.arr, w.bucket.arr
    ensures Ready(text, textMax, sa, w, keep)
    ensures Cached(w.bucket.View(), c1, b', bk[c1 := bk[c1] + 1])
    ensures sa.View() == old(sa.View())[bk[c1] := v]
    ensures forall u :: u in keep ==> u.View() == old(u.View())
  {
    hide *;
    b' := Switch(text, textMax, sa, w, cB, b, c1, bk, keep);
    SetCell(text, textMax, sa, w, b', v, keep);
    CacheNext(w.bucket.View(), c1, b', bk, b' + 1);
    b' := b' + 1;
  }

  /** Puts `v` at the back of bucket `c1`. */
  method PutBack(text: Slice, textMax: nat, sa: Slice, w: Scratch, cB: int, b: int32, c1: int, v: int32,
                 ghost bk: seq<int>, ghost keep: set<Slice>)
    returns (b': int32)
    requires Ready(text, textMax, sa, w, keep) && Cached(w.bucket.View(), cB, b, bk)
    requires 0 <= c1 < textMax == |bk| && 0 < bk[c1] <= sa.len
    modifies sa.arr, w.bucket.arr
    ensures Ready(text, textMax, sa, w, keep)
    ensures Cached(w.bucket.View(), c1, b', bk[c1 := bk[c1] - 1])
    ensures sa.View() == old(sa.View())[bk[c1] - 1 := v]
    ensures forall u :: u in keep ==> u.View() == old(u.View())
  {
    hide *;
    b' := Switch(text, textMax, sa, w, cB, b, c1, bk, keep);
    CacheNext(w.bucket.View(), c1, b', bk, b' - 1);
    b' := b' - 1;
    SetCell(text, textMax, sa, w, b', v, keep);
  }

  /** Bucket starts, as the left-to-right scans begin. */
  method Fronts(text: Slice, textMax: nat, sa: Slice, w: Scratch, ghost x: Ctx, ghost keep: set<Slice>)
    requires Ready(text, textMax, sa, w, keep)
    requires x.Valid() && x.t == text.View() && x.textMax == textMax && x.bd == Bounds(x.t, textMax)
    modifies w.bucket.arr, w.FreqArrays()
    ensures Ready(text, textMax, sa, w, keep)
    ensures w.bucket.View() == LStarts(x) && sa.View() == old(sa.View())
    ensures forall u :: u in keep ==> u.View() == old(u.View())
  {
    BucketMin(text, textMax, w, keep + {sa});
    assert w.bucket.View() == LStarts(x);
  }

  /** Bucket ends, as the right-to-left scans begin. */
  method Backs(text: Slice, textMax: nat, sa: Slice, w: Scratch, ghost x: Ctx, ghost keep: set<Slice>)
    requires Ready(text, textMax, sa, w, keep)
    requires x.Valid() && x.t == text.View() && x.textMax == textMax && x.bd == Bounds(x.t, textMax)
    modifies w.bucket.arr, w.FreqArrays()
    ensures Ready(text, textMax, sa, w, keep)
    ensures w.bucket.View() == SEnds(x) && sa.View() == old(sa.View())
    ensures forall u :: u in keep ==> u.View() == old(u.View())
  {
    BucketMax(text, textMax, w, keep + {sa});
    assert w.bucket.View() == SEnds(x);
  }

  /** The scan concerns this text and this alphabet. */
  ghost predicate About(x: Ctx, t: seq<int>, textMax: nat)
    ensures About(x, t, textMax) ==> x.Valid() && x.t == t && x.textMax == textMax && IsBounds(t, textMax, x.bd)
    ensures About(x, t, textMax) ==> x.bd == Bounds(t, textMax)
    ensures About(x, t, textMax) && x.from == 0 ==> WholeText(x)
  {
    x.Valid() && x.t == t && x.textMax == textMax && x.bd == Bounds(t, textMax)
  }

  lemma CacheFirst(bucket: seq<int>, c: int)
    requires 0 <= c < |bucket|
    ensures Cached(bucket, c, bucket[c], bucket)
  {
  }

  lemma PlaceFront(x: Ctx, s: Scan, k: int)
    requires x.Valid() && 0 <= k < |x.t| && |s.A| == |s.at| == |x.t| && |s.bk| == x.textMax && ScanL.Room(x, s, k)
    ensures 0 <= x.t[k] < x.textMax && 0 <= s.bk[x.t[k]] < |x.t|
    ensures ScanL.Place(x, s, k).bk == s.bk[x.t[k] := s.bk[x.t[k]] + 1]
    ensures LMark(x.t, k) == if 0 < k && x.t[k - 1] < x.t[k] then -k else k
  {
  }

  lemma PlaceBack(x: Ctx, s: Scan, k: int)
    requires x.Valid() && 0 <= k < |x.t| && |s.A| == |s.at| == |x.t| && |s.bk| == x.textMax && ScanS.Room(x, s, k)
    ensures 0 <= x.t[k] < x.textMax && 0 < s.bk[x.t[k]] <= |x.t|
    ensures ScanS.Place(x, s, k).bk == s.bk[x.t[k] := s.bk[x.t[k]] - 1]
    ensures SMark(x.t, k) == if 0 < k && x.t[k - 1] <= x.t[k] then -k else k
    ensures 0 < k ==> SubSMark(x.t, k) == if x.t[k - 1] > x.t[k] then -k else k
  {
  }

  /** Sorts the L-type positions that start substrings ending in an LMS position. */
  method InduceSubL(text: Slice, textMax: nat, sa: Slice, w: Scratch, ghost x: Ctx, ghost s0: Scan, ghost keep: set<Slice>)
    returns (ghost s: Scan)
    requires Ready(text, textMax, sa, w, keep) && About(x, text.View(), textMax) && 0 < x.from
    requires ScanL.Seeded(x, s0) && s0.bk == LStarts(x) && Holds(sa.View(), s0.A)
    modifies sa.arr, w.bucket.arr, w.FreqArrays()
    ensures Ready(text, textMax, sa, w, keep)
    ensures forall u :: u in keep ==> u.View() == old(u.View())
    ensures ScanL.Inv(x, s, |x.t|) && HoldsSubL(x.t, sa.View(), s.A, |x.t|)
  {
    hide *;
    Fronts(text, textMax, sa, w, x, keep);
    SubLBegin(x, s0, sa.View());
    PlaceFront(x, s0, |x.t| - 1);
    var k := text.len - 1;
    var c0, c1 := text.Get(k - 1), text.Get(k);
    if c0 < c1 {
      k := -k;
    }
    var cB := c1;
    CacheFirst(w.bucket.View(), cB);
    var b := w.bucket.Get(cB);
    b := PutFront(text, textMax, sa, w, cB, b, c1, k, s0.bk, keep);
    s := ScanL.Place(x, s0, |x.t| - 1);

    for i := 0 to sa.len
      invariant Ready(text, textMax, sa, w, keep)
      invariant forall u :: u in keep ==> u.View() == old(u.View())
      invariant ScanL.Inv(x, s, i) && HoldsSubL(x.t, sa.View(), s.A, i)
      invariant Cached(w.bucket.View(), cB, b, s.bk)
    {
      var j := sa.Get(i);
      if j == 0 {
        SubLSkip(x, s, sa.View(), i);
        assert sa.View() == sa.View()[i := 0];
        continue;
      }
      if j < 0 {
        SubLRange(x.t, sa.View(), s.A, i, i);
        SubLSkip(x, s, sa.View(), i);
        SetCell(text, textMax, sa, w, i, -j, keep);
        continue;
      }
      SubLStep(x, s, sa.View(), i);
      PlaceFront(x, s, j - 1);
      SetCell(text, textMax, sa, w, i, 0, keep);
      var k := j - 1;
      var c0, c1 := text.Get(k - 1), text.Get(k);
      if c0 < c1 {
        k := -k;
      }
      b := PutFront(text, textMax, sa, w, cB, b, c1, k, s.bk, keep);
      cB := c1;
      s := ScanL.Place(x, s, j - 1);
    }
  }

  lemma HandoverBuckets(x: Ctx, s: Scan)
    requires x.Valid() && ScanL.Inv(x, s, |x.t|)
    ensures ScanL.Shape(x, s) && ScanS.Handover(x, s).bk == SEnds(x)
    ensures |ScanS.Handover(x, s).A| == |x.t|
  {
  }

  /** Sorts the LMS-substrings, leaving their starts packed at the top of the array. */
  method InduceSubS(text: Slice, textMax: nat, sa: Slice, w: Scratch, ghost x: Ctx, ghost s0: Scan, ghost keep: set<Slice>)
    returns (ghost s: Scan, ghost top: int)
    requires Ready(text, textMax, sa, w, keep) && About(x, text.View(), textMax) && 0 < x.from
    requires ScanL.Inv(x, s0, |x.t|) && HoldsSubL(x.t, sa.View(), s0.A, |x.t|)
    modifies sa.arr, w.bucket.arr, w.FreqArrays()
    ensures Ready(text, textMax, sa, w, keep)
    ensures forall u :: u in keep ==> u.View() == old(u.View())
    ensures ScanS.Inv(x, s, 0) && HoldsSubS(x.t, sa.View(), s.A, 0, top)
  {
    hide *;
    Backs(text, textMax, sa, w, x, keep);
    HandoverBuckets(x, s0);
    SubSBegin(x, s0, sa.View());
    s := ScanS.Handover(x, s0);
    var cB := 0;
    CacheFirst(w.bucket.View(), cB);
    var b := w.bucket.Get(cB);

    var top_ := sa.len;
    for i := sa.len downto 0
      invariant Ready(text, textMax, sa, w, keep)
      invariant forall u :: u in keep ==> u.View() == old(u.View())
      invariant ScanS.Inv(x, s, i) && HoldsSubS(x.t, sa.View(), s.A, i, top_)
      invariant Cached(w.bucket.View(), cB, b, s.bk)
    {
      var j := sa.Get(i);
      if j == 0 {
        SubSSkip(x, s, sa.View(), i, top_);
        continue;
      }
      if j < 0 {
        SubSRange(x.t, sa.View(), s.A, i, top_);
        SubSKeep(x, s, sa.View(), i, top_);
        SetCell(text, textMax, sa, w, i, 0, keep);
        top_ := top_ - 1;
        SetCell(text, textMax, sa, w, top_, -j, keep);
        continue;
      }
      SubSStep(x, s, sa.View(), i, top_);
      PlaceBack(x, s, j - 1);
      SetCell(text, textMax, sa, w, i, 0, keep);
      var k := j - 1;
      var c1 := text.Get(k);
      var c0 := text.Get(k - 1);
      if c0 > c1 {
        k := -k;
      }
      b := PutBack(text, textMax, sa, w, cB, b, c1, k, s.bk, keep);
      cB := c1;
      s := ScanS.Place(x, s, j - 1);
    }
    top := top_;
  }

  /** Sorts the L-type suffixes, given the LMS suffixes in their places. */
  method InduceL(text: Slice, textMax: nat, sa: Slice, w: Scratch, ghost x: Ctx, ghost s0: Scan, ghost keep: set<Slice>)
    returns (ghost s: Scan)
    requires Ready(text, textMax, sa, w, keep) && About(x, text.View(), textMax) && x.from == 0
    requires ScanL.Seeded(x, s0) && s0.bk == LStarts(x) && Holds(sa.View(), s0.A)
    modifies sa.arr, w.bucket.arr, w.FreqArrays()
    ensures Ready(text, textMax, sa, w, keep)
    ensures forall u :: u in keep ==> u.View() == old(u.View())
    ensures ScanL.Inv(x, s, |x.t|) && HoldsL(x.t, sa.View(), s.A)
  {
    hide *;
    Fronts(text, textMax, sa, w, x, keep);
    LBegin(x, s0, sa.View());
    PlaceFront(x, s0, |x.t| - 1);
    var k := text.len - 1;
    var c0, c1 := text.Get(k - 1), text.Get(k);
    if c0 < c1 {
      k := -k;
    }
    var cB := c1;
    CacheFirst(w.bucket.View(), cB);
    var b := w.bucket.Get(cB);
    b := PutFront(text, textMax, sa, w, cB, b, c1, k, s0.bk, keep);
    s := ScanL.Place(x, s0, |x.t| - 1);

    for i := 0 to sa.len
      invariant Ready(text, textMax, sa, w, keep)
      invariant forall u :: u in keep ==> u.View() == old(u.View())
      invariant ScanL.Inv(x, s, i) && HoldsL(x.t, sa.View(), s.A)
      invariant Cached(w.bucket.View(), cB, b, s.bk)
    {
      var j := sa.Get(i);
      if j <= 0 {
        LSkip(x, s, sa.View(), i);
        continue;
      }
      LStep(x, s, sa.View(), i);
      PlaceFront(x, s, j - 1);
      var k := j - 1;
      var c1 := text.Get(k);
      if k > 0 {
        var c0 := text.Get(k - 1);
        if c0 < c1 {
          k := -k;
        }
      }
      b := PutFront(text, textMax, sa, w, cB, b, c1, k, s.bk, keep);
      cB := c1;
      s := ScanL.Place(x, s, j - 1);
    }
  }

  /** Sorts the S-type suffixes and with them all suffixes. */
  method InduceS(text: Slice, textMax: nat, sa: Slice, w: Scratch, ghost x: Ctx, ghost s0: Scan, ghost keep: set<Slice>)
    requires Ready(text, textMax, sa, w, keep) && About(x, text.View(), textMax) && x.from == 0
    requires ScanL.Inv(x, s0, |x.t|) && HoldsL(x.t, sa.View(), s0.A) && RankComplete(x.t, x.rk)
    modifies sa.arr, w.bucket.arr, w.FreqArrays()
    ensures Ready(text, textMax, sa, w, keep)
    ensures forall u :: u in keep ==> u.View() == old(u.View())
    ensures IsSuffixArray(text.View(), sa.View())
  {
    hide *;
    Backs(text, textMax, sa, w, x, keep);
    HandoverBuckets(x, s0);
    SBegin(x, s0, sa.View());
    ghost var s := ScanS.Handover(x, s0);
    DenseEmpty(s.A);
    var cB := 0;
    CacheFirst(w.bucket.View(), cB);
    var b := w.bucket.Get(cB);

    for i := sa.len downto 0
      invariant Ready(text, textMax, sa, w, keep)
      invariant forall u :: u in keep ==> u.View() == old(u.View())
      invariant ScanS.Inv(x, s, i) && ScanS.Dense(s.A, i) && HoldsS(x.t, sa.View(), s.A, i)
      invariant Cached(w.bucket.View(), cB, b, s.bk)
    {
      var j := sa.Get(i);
      if j >= 0 {
        SSkip(x, s, sa.View(), i);
        continue;
      }
      SStep(x, s, sa.View(), i);
      PlaceBack(x, s, -j - 1);
      j := -j;
      SetCell(text, textMax, sa, w, i, j, keep);
      var k := j - 1;
      var c1 := text.Get(k);
      if k > 0 {
        var c0 := text.Get(k - 1);
        if c0 <= c1 {
          k := -k;
        }
      }
      b := PutBack(text, textMax, sa, w, cB, b, c1, k, s.bk, keep);
      cB := c1;
      s := ScanS.Place(x, s, j - 1);
    }
    SDone(x, s, sa.View());
  }

  lemma DenseEmpty(A: seq<int>)
    ensures ScanS.Dense(A, |A|)
  {
  }
}
