/** LMS positions placed at the right ends of their buckets: what both scans start from. */
module Seeds {
  import opened LmsTypes
  import opened Buckets
  import opened Slices
  import opened Frequencies
  import ScanL
  import ScanS

  /** Only LMS positions are placed, each in its half, and within a half by rank. */
  ghost predicate Ranked(x: Ctx, s: Scan)
    requires x.Valid()
  {
    && |s.A| == |x.t| && Inverse(s.A, s.at)
    && (forall p :: 0 <= p < |x.t| && s.A[p] != -1 ==> IsLms(x.t, s.A[p]) && x.InHalf(p, s.A[p]))
    && (forall p, q ::
          0 <= p < q < |x.t| && s.A[p] != -1 && s.A[q] != -1 && Head(x.t, s.A[p]) == Head(x.t, s.A[q]) ==>
            x.rk[s.A[p]] <= x.rk[s.A[q]])
  }

  lemma PlaceSeed(x: Ctx, s: Scan, k: nat)
    requires x.Valid() && IsBounds(x.t, x.textMax, x.bd) && x.from == 0
    requires ScanS.Shape(x, s) && Ranked(x, s) && IsLms(x.t, k) && s.at[k] == -1
    requires forall j :: 0 <= j < |x.t| && s.at[j] != -1 && Head(x.t, j) == Head(x.t, k) ==> x.rk[k] <= x.rk[j]
    ensures ScanS.Room(x, s, k)
    ensures ScanS.Shape(x, ScanS.Place(x, s, k)) && Ranked(x, ScanS.Place(x, s, k))
  {
    ScanS.PlaceRoom(x, s, k);
    ScanS.PlaceShape(x, s, k);
    PlaceRanked(x, s, k);
  }

  lemma PlaceRanked(x: Ctx, s: Scan, k: nat)
    requires x.Valid() && ScanS.Shape(x, s) && Ranked(x, s) && IsLms(x.t, k)
    requires ScanS.Room(x, s, k) && ScanS.Shape(x, ScanS.Place(x, s, k))
    requires forall j :: 0 <= j < |x.t| && s.at[j] != -1 && Head(x.t, j) == Head(x.t, k) ==> x.rk[k] <= x.rk[j]
    ensures Ranked(x, ScanS.Place(x, s, k))
  {
    hide ScanS.Filled;
    var s' := ScanS.Place(x, s, k);
    forall p, q | 0 <= p < q < |x.t| && s'.A[p] != -1 && s'.A[q] != -1 && Head(x.t, s'.A[p]) == Head(x.t, s'.A[q])
      ensures x.rk[s'.A[p]] <= x.rk[s'.A[q]]
    {
      PlacePair(x, s, k, p, q);
    }
  }

  lemma PlacePair(x: Ctx, s: Scan, k: nat, p: nat, q: nat)
    requires x.Valid() && ScanS.Shape(x, s) && Ranked(x, s) && IsLms(x.t, k) && ScanS.Room(x, s, k)
    requires forall j :: 0 <= j < |x.t| && s.at[j] != -1 && Head(x.t, j) == Head(x.t, k) ==> x.rk[k] <= x.rk[j]
    requires p < q < |x.t|
    requires var A := ScanS.Place(x, s, k).A;
             0 <= A[p] < |x.t| && 0 <= A[q] < |x.t| && Head(x.t, A[p]) == Head(x.t, A[q])
    ensures var A := ScanS.Place(x, s, k).A; x.rk[A[p]] <= x.rk[A[q]]
  {
    var b := s.bk[x.t[k]] - 1;
    if p == b {
      assert s.at[s.A[q]] == q;
    }
  }

  ghost function LStarts(x: Ctx): (bk: seq<int>)
    requires x.Valid()
    ensures |bk| == x.textMax && forall c :: 0 <= c < x.textMax ==> bk[c] == x.bd[2 * c]
  {
    seq(x.textMax, c requires 0 <= c < x.textMax => x.bd[2 * c])
  }

  ghost function SEnds(x: Ctx): (bk: seq<int>)
    requires x.Valid()
    ensures |bk| == x.textMax && forall c :: 0 <= c < x.textMax ==> bk[c] == x.bd[2 * c + 2]
  {
    seq(x.textMax, c requires 0 <= c < x.textMax => x.bd[2 * c + 2])
  }

  ghost function Nowhere(n: nat): (r: seq<int>)
    ensures |r| == n && forall p :: 0 <= p < n ==> r[p] == -1
  {
    seq(n, _ => -1)
  }

  /** Before anything is placed. */
  lemma Empty(x: Ctx)
    requires x.Valid()
    ensures var s := Scan(Nowhere(|x.t|), Nowhere(|x.t|), SEnds(x));
            ScanS.Shape(x, s) && Ranked(x, s)
  {
  }

  /** Ranked seeds, all those after `from`, are what the left-to-right scan starts from. */
  lemma ToScan(x: Ctx, s: Scan)
    requires x.Valid() && Ranked(x, s) && s.bk == LStarts(x)
    requires forall j :: 0 <= j < |x.t| ==> (s.at[j] != -1 <==> IsLms(x.t, j) && x.from < j)
    ensures ScanL.Seeded(x, s)
  {
    forall c | 0 <= c < x.textMax
      ensures forall p :: s.bk[c] <= p < x.bd[2 * c + 1] ==> s.A[p] == -1
    {
      forall p | x.bd[2 * c] <= p < x.bd[2 * c + 1] ensures s.A[p] == -1 {
        if s.A[p] != -1 {
          HalfUnique(x, p, s.A[p], 2 * c);
        }
      }
    }
    forall p | 0 <= p < |x.t| && s.A[p] != -1 ensures ScanL.Wanted(x, s.A[p]) {
      assert s.at[s.A[p]] == p;
    }
    ToScanSorted(x, s);
  }

  lemma ToScanSorted(x: Ctx, s: Scan)
    requires x.Valid() && Ranked(x, s)
    ensures ScanL.Sorted(x, s.A)
  {
    forall p, q | 0 <= p < q < |x.t| && 0 <= s.A[p] < |x.t| && 0 <= s.A[q] < |x.t|
      ensures !LLess(x.t, x.rk, s.A[q], s.A[p])
    {
      HeadsByIndex(x, p, s.A[p], q, s.A[q]);
    }
  }

  /** What the array holds while only seeds are placed: the seeds, and 0 elsewhere. */
  ghost predicate Holds(sa: seq<int>, A: seq<int>)
  {
    |sa| == |A| && forall p :: 0 <= p < |A| ==> sa[p] == if A[p] == -1 then 0 else A[p]
  }

  ghost function SubCtx(t: seq<int>, textMax: nat, from: nat): Ctx
  {
    Ctx(t, textMax, Bounds(t, textMax), NoRanks(t), from)
  }

  ghost function FirstLms(t: seq<int>): nat
  {
    var all := LmsFrom(t, 0);
    if |all| > 1 then assert all[0] in all; all[0] else 0
  }

  /** The seeds placed so far are exactly the LMS positions after `i`. */
  ghost predicate Gathered(x: Ctx, s: Scan, i: nat)
    requires x.Valid()
  {
    && ScanS.Shape(x, s) && Ranked(x, s)
    && (forall j :: 0 <= j < |x.t| ==> (s.at[j] != -1 <==> IsLms(x.t, j) && i < j))
  }

  lemma GatherStart(x: Ctx)
    requires x.Valid()
    ensures Gathered(x, Scan(Nowhere(|x.t|), Nowhere(|x.t|), SEnds(x)), |x.t|)
  {
    Empty(x);
  }

  lemma GatherSkip(x: Ctx, s: Scan, i: nat)
    requires x.Valid() && Gathered(x, s, i + 1) && !IsLms(x.t, i + 1)
    ensures Gathered(x, s, i)
  {
  }

  lemma GatherStep(x: Ctx, s: Scan, i: nat)
    requires x.Valid() && IsBounds(x.t, x.textMax, x.bd) && x.from == 0 && x.rk == NoRanks(x.t)
    requires Gathered(x, s, i + 1) && IsLms(x.t, i + 1)
    ensures ScanS.Room(x, s, i + 1) && Gathered(x, ScanS.Place(x, s, i + 1), i)
  {
    PlaceSeed(x, s, i + 1);
  }

  lemma FirstLmsFirst(t: seq<int>, j: nat)
    requires |LmsFrom(t, 0)| > 1 && IsLms(t, j)
    ensures IsLms(t, FirstLms(t)) && FirstLms(t) == LmsFrom(t, 0)[0]
    ensures j == FirstLms(t) || FirstLms(t) < j
  {
    var all := LmsFrom(t, 0);
    assert j in all && all[0] in all;
  }

  /** Without the first seed, the others are where the left-to-right scan expects them. */
  lemma GatherDone(x: Ctx, s: Scan, lastB: int)
    requires x.Valid() && Gathered(x, s, 0) && x.from == 0
    requires |LmsFrom(x.t, 0)| > 1 ==> 0 <= lastB < |x.t| && s.A[lastB] == LmsFrom(x.t, 0)[0]
    ensures var x' := x.(from := FirstLms(x.t));
            && x'.Valid()
            && ScanL.Seeded(x', if |LmsFrom(x.t, 0)| > 1
                                then Scan(s.A[lastB := -1], s.at[x'.from := -1], LStarts(x))
                                else s.(bk := LStarts(x)))
  {
    var from := FirstLms(x.t);
    if |LmsFrom(x.t, 0)| > 1 {
      FirstLmsFirst(x.t, LmsFrom(x.t, 0)[0]);
      var s' := Scan(s.A[lastB := -1], s.at[from := -1], LStarts(x));
      forall j | 0 <= j < |x.t| ensures s'.at[j] != -1 <==> IsLms(x.t, j) && from < j {
        if IsLms(x.t, j) {
          FirstLmsFirst(x.t, j);
        }
      }
      DropRanked(x, s, lastB, from);
      ToScan(x.(from := from), s');
    } else {
      ToScan(x, s.(bk := LStarts(x)));
    }
  }

  lemma DropRanked(x: Ctx, s: Scan, b: nat, from: nat)
    requires x.Valid() && Ranked(x, s) && b < |x.t| && s.A[b] == from && IsLms(x.t, from)
    ensures Ranked(x.(from := from), Scan(s.A[b := -1], s.at[from := -1], LStarts(x)))
  {
  }

  /** The workspace of one level: what overlaps with what, and what the cache says. */
  ghost predicate Ready(text: Slice, textMax: nat, sa: Slice, w: Scratch, keep: set<Slice>)
    reads text.arr, w.FreqArrays()
    ensures Ready(text, textMax, sa, w, keep) ==>
              && text in keep && text.Valid() && sa.Valid() && 2 <= text.len == sa.len < 0x8000_0000
              && w.bucket.Valid() && w.bucket.len == textMax && 0 < textMax
              && Symbols(text.View(), textMax)
              && forall u :: u in keep ==> u.Valid()
  {
    && w.Valid(textMax) && text in keep && text.Valid() && sa.Valid()
    && w.ApartFrom(keep + {sa}) && Apart(sa, keep)
    && 2 <= text.len == sa.len < 0x8000_0000 && 0 < textMax
    && Symbols(text.View(), textMax) && w.Coherent(text.View(), textMax)
  }

  /** What a cached bucket offset stands for: cell `cB` of the table is held in `b`. */
  ghost predicate Cached(bucket: seq<int>, cB: int, b: int, bk: seq<int>)
  {
    0 <= cB < |bucket| && bucket[cB := b] == bk
  }

  /** Writes one cell of the array being sorted. */
  method SetCell(text: Slice, ghost textMax: nat, sa: Slice, w: Scratch, i: int, v: int32, ghost keep: set<Slice>)
    requires Ready(text, textMax, sa, w, keep) && 0 <= i < sa.len
    modifies sa.arr
    ensures Ready(text, textMax, sa, w, keep)
    ensures sa.View() == old(sa.View())[i := v] && w.bucket.View() == old(w.bucket.View())
    ensures forall u :: u in keep ==> u.View() == old(u.View())
  {
    sa.Set(i, v, keep + {w.bucket} + w.FreqSlices());
  }

  /** Writes one bucket offset. */
  method SetBucket(text: Slice, ghost textMax: nat, sa: Slice, w: Scratch, c: int, v: int32, ghost keep: set<Slice>)
    requires Ready(text, textMax, sa, w, keep) && 0 <= c < textMax
    modifies w.bucket.arr
    ensures Ready(text, textMax, sa, w, keep)
    ensures w.bucket.View() == old(w.bucket.View())[c := v] && sa.View() == old(sa.View())
    ensures forall u :: u in keep ==> u.View() == old(u.View())
  {
    w.bucket.Set(c, v, keep + {sa} + w.FreqSlices());
  }

  /** Takes the next index from the right end of a bucket for position `k`. */
  method TakeEnd(text: Slice, sa: Slice, w: Scratch, c: int, k: int, ghost x: Ctx, ghost s: Scan, ghost keep: set<Slice>)
    returns (b: int, ghost s': Scan)
    requires Ready(text, x.textMax, sa, w, keep)
    requires x.Valid() && x.t == text.View()
    requires 0 < k < |x.t| && c == x.t[k] && |s.A| == |s.at| == |x.t| && |s.bk| == x.textMax && ScanS.Room(x, s, k)
    requires Holds(sa.View(), s.A) && w.bucket.View() == s.bk
    modifies sa.arr, w.bucket.arr
    ensures Ready(text, x.textMax, sa, w, keep)
    ensures s' == ScanS.Place(x, s, k) && |s'.A| == |s'.at| == |x.t| && |s'.bk| == x.textMax
    ensures 0 <= b < |x.t| && s'.A[b] == k && Holds(sa.View(), s'.A) && w.bucket.View() == s'.bk
    ensures forall u :: u in keep ==> u.View() == old(u.View())
  {
    hide *;
    PlaceEnd(x, s, k, sa.View());
    s' := ScanS.Place(x, s, k);
    b := w.bucket.Get(c) - 1;
    SetBucket(text, x.textMax, sa, w, c, b, keep);
    SetCell(text, x.textMax, sa, w, b, k, keep);
  }

  lemma PlaceEnd(x: Ctx, s: Scan, k: nat, sa: seq<int>)
    requires x.Valid() && 0 < k < |x.t| && |s.A| == |s.at| == |x.t| && |s.bk| == x.textMax && ScanS.Room(x, s, k)
    requires Holds(sa, s.A)
    ensures 0 <= x.t[k] < x.textMax
    ensures var s', b := ScanS.Place(x, s, k), s.bk[x.t[k]] - 1;
            && 0 <= b < |x.t| == |sa| && |s'.A| == |s'.at| == |x.t| && |s'.bk| == x.textMax
            && s'.A[b] == k && Holds(sa[b := k], s'.A) && s'.bk == s.bk[x.t[k] := b]
  {
  }

  /** Empties index `b` again. */
  method Drop(text: Slice, textMax: nat, sa: Slice, w: Scratch, b: int, ghost A: seq<int>, ghost keep: set<Slice>)
    requires Ready(text, textMax, sa, w, keep)
    requires 0 <= b < sa.len && Holds(sa.View(), A)
    modifies sa.arr
    ensures Ready(text, textMax, sa, w, keep)
    ensures |A| == sa.len && Holds(sa.View(), A[b := -1])
    ensures forall u :: u in keep ==> u.View() == old(u.View())
  {
    sa.Set(b, 0, keep + {w.bucket} + w.FreqSlices());
  }

  lemma SubCtxValid(t: seq<int>, textMax: nat)
    requires 0 < |t| && Symbols(t, textMax)
    ensures var x := SubCtx(t, textMax, 0);
            && x.Valid() && x.t == t && x.textMax == textMax && x.from == 0
            && x.rk == NoRanks(t) && IsBounds(t, textMax, x.bd)
  {
  }

  lemma HoldsNothing(sa: seq<int>)
    requires forall p :: 0 <= p < |sa| ==> sa[p] == 0
    ensures Holds(sa, Nowhere(|sa|))
  {
  }

  lemma FirstSeed(x: Ctx, s: Scan, i: nat)
    requires x.Valid() && Gathered(x, s, i)
    ensures |s.A| == |s.at| == |x.t| && |s.bk| == x.textMax
  {
  }

  /** Puts the LMS positions, in text order, at the right ends of their buckets. The first
      of them is taken out again when there are several. */
  method PlaceLms(text: Slice, textMax: nat, sa: Slice, w: Scratch, ghost keep: set<Slice>)
    returns (numLms: nat, ghost s: Scan)
    requires Ready(text, textMax, sa, w, keep)
    requires forall p :: 0 <= p < sa.len ==> sa.View()[p] == 0
    modifies sa.arr, w.bucket.arr, w.FreqArrays()
    ensures Ready(text, textMax, sa, w, keep)
    ensures forall u :: u in keep ==> u.View() == old(u.View())
    ensures numLms == |LmsFrom(text.View(), 0)|
    ensures var x := SubCtx(text.View(), textMax, FirstLms(text.View()));
            x.Valid() && ScanL.Seeded(x, s) && Holds(sa.View(), s.A) && s.bk == LStarts(x)
  {
    ghost var t := text.View();
    BucketMax(text, textMax, w, keep + {sa});
    ghost var x := SubCtx(t, textMax, 0);
    SubCtxValid(t, textMax);
    s := Scan(Nowhere(|t|), Nowhere(|t|), SEnds(x));
    GatherStart(x);
    HoldsNothing(sa.View());
    assert w.bucket.View() == s.bk;
    var lastB;
    numLms, lastB, s := GatherLms(text, textMax, sa, w, x, s, keep);
    GatherDone(x, s, lastB);
    if numLms > 1 {
      Drop(text, textMax, sa, w, lastB, s.A, keep);
      s := Scan(s.A[lastB := -1], s.at[FirstLms(t) := -1], LStarts(x));
    } else {
      s := s.(bk := LStarts(x));
    }
  }

  /** The backward scan over the text that finds the LMS positions. */
  method GatherLms(text: Slice, textMax: nat, sa: Slice, w: Scratch, ghost x: Ctx, ghost s0: Scan, ghost keep: set<Slice>)
    returns (numLms: nat, lastB: int, ghost s: Scan)
    requires Ready(text, textMax, sa, w, keep)
    requires x.Valid() && x.t == text.View() && x.textMax == textMax && x.from == 0
    requires x.rk == NoRanks(x.t) && IsBounds(x.t, textMax, x.bd)
    requires Gathered(x, s0, |x.t|) && Holds(sa.View(), s0.A) && w.bucket.View() == s0.bk
    modifies sa.arr, w.bucket.arr
    ensures Ready(text, textMax, sa, w, keep)
    ensures forall u :: u in keep ==> u.View() == old(u.View())
    ensures Gathered(x, s, 0) && Holds(sa.View(), s.A)
    ensures numLms == |LmsFrom(x.t, 0)|
    ensures numLms > 0 ==> 0 <= lastB < |s.A| && s.A[lastB] == LmsFrom(x.t, 0)[0]
  {
    hide *;
    ghost var t := x.t;
    s := s0;
    FirstSeed(x, s, |t|);
    LmsEnds(t);
    numLms := 0;
    lastB := -1;
    var c0, isTypeS := 0, false;
    for i := text.len downto 0
      invariant Ready(text, textMax, sa, w, keep)
      invariant forall u :: u in keep ==> u.View() == old(u.View())
      invariant c0 == (if i < text.len then t[i] else 0) && isTypeS == (i < text.len && IsS(t, i))
      invariant Gathered(x, s, i) && Holds(sa.View(), s.A) && w.bucket.View() == s.bk
      invariant |s.A| == |t|
      invariant numLms == |LmsFrom(t, i + 1)|
      invariant numLms > 0 ==> 0 <= lastB < |t| && s.A[lastB] == LmsFrom(t, i + 1)[0]
    {
      var c1 := c0;
      c0 := text.Get(i);
      TypeStep(t, textMax, i, c1, isTypeS);
      FirstSeed(x, s, i + 1);
      if c0 < c1 {
        isTypeS := true;
        GatherSkip(x, s, i);
      } else if c0 > c1 && isTypeS {
        isTypeS := false;
        GatherStep(x, s, i);
        lastB, s := TakeEnd(text, sa, w, c1, i + 1, x, s, keep);
        numLms := numLms + 1;
      } else {
        GatherSkip(x, s, i);
      }
    }
  }
}
