/** Suffix array construction by induced sorting, with the recursion working in the
    array of the level above it. */
module Sais {
  import opened Options
  import opened Suffixes
  import opened LmsTypes
  import opened Buckets
  import opened Slices
  import opened Frequencies
  import opened Seeds
  import opened Cells
  import opened Naming
  import opened Notes
  import opened Expansion
  import opened Induce
  import opened Reduce
  import ScanL
  import ScanS

  /** The windows one level works with: the text is read only, and nothing overlaps. */
  ghost predicate Setting(text: Slice, textMax: nat, sa: Slice, tmp: Slice, keep: set<Slice>)
    ensures Setting(text, textMax, sa, tmp, keep) ==>
              && text in keep && text.Valid() && sa.Valid() && tmp.Valid()
              && sa.len == text.len && textMax <= tmp.len && Apart(sa, keep)
              && forall u :: u in keep ==> u.Valid()
  {
    && text in keep && text.Valid() && sa.Valid() && tmp.Valid()
    && Apart(sa, keep) && Apart(tmp, keep + {sa}) && sa.len == text.len && textMax <= tmp.len
  }

  /** Frequencies are kept when there is room for them beside the bucket offsets. */
  function ScratchOf(tmp: Slice, textMax: nat): (w: Scratch)
    requires textMax <= tmp.len
    ensures w.bucket.arr == tmp.arr && w.bucket.len == textMax
    ensures w.FreqArrays() <= {tmp.arr}
  {
    if tmp.len >= 2 * textMax
    then Scratch(Some(tmp.Sub(0, textMax)), tmp.Sub(textMax, 2 * textMax))
    else Scratch(None, tmp.Sub(0, textMax))
  }

  lemma SubView(s: Slice, lo: int, hi: int)
    requires s.Valid() && 0 <= lo <= hi <= s.len
    ensures s.Sub(lo, hi).Valid() && s.Sub(lo, hi).View() == s.View()[lo..hi]
  {
    var u, v := s.Sub(lo, hi).View(), s.View();
    assert |u| == hi - lo && forall p :: 0 <= p < |u| ==> u[p] == v[lo..hi][p];
  }

  /** Marks the cached frequencies as not computed, and puts the level to work. */
  method Prepare(text: Slice, textMax: nat, sa: Slice, tmp: Slice, ghost keep: set<Slice>) returns (w: Scratch)
    requires Setting(text, textMax, sa, tmp, keep) && 2 <= text.len < 0x8000_0000 && Symbols(text.View(), textMax)
    modifies tmp.arr
    ensures w == ScratchOf(tmp, textMax) && Ready(text, textMax, sa, w, keep)
    ensures sa.View() == old(sa.View())
    ensures forall u :: u in keep ==> u.View() == old(u.View())
  {
    w := ScratchOf(tmp, textMax);
    assert 0 < textMax by { assert text.View()[0] < textMax; }
    if w.freq.Some? {
      w.freq.value.Set(0, -1, keep + {sa});
    }
  }

  /** What the substring scans leave: nothing but the sorted list at the top. */
  lemma AfterSubScans(x: Ctx, s: Scan, sa: seq<int>, top: int)
    requires x.Valid() && x.rk == NoRanks(x.t) && x.from == FirstLms(x.t) && NumLms(x.t) > 1
    requires ScanS.Inv(x, s, 0) && HoldsSubS(x.t, sa, s.A, 0, top)
    ensures var l := LmsIn(x.t, s.A);
            SortedSubs(x.t, l) && Listed(x.t, sa, l) && HoldsNotes(x.t, sa, NoNotes(x.t))
  {
    forall j | IsLms(x.t, j) ensures x.from <= j {
      FirstLmsFirst(x.t, j);
    }
    PackedIsSorted(x, s);
    assert s.A[0..] == s.A;
    LmsHalf(x.t);
    NothingNoted(x.t, sa, top);
  }

  lemma SubAbout(t: seq<int>, textMax: nat)
    requires SubCtx(t, textMax, FirstLms(t)).Valid()
    ensures About(SubCtx(t, textMax, FirstLms(t)), t, textMax)
    ensures SubCtx(t, textMax, FirstLms(t)).from == FirstLms(t) && SubCtx(t, textMax, FirstLms(t)).rk == NoRanks(t)
    ensures NumLms(t) > 1 ==> 0 < FirstLms(t)
  {
    if NumLms(t) > 1 {
      LmsInText(t, 0);
    }
  }

  lemma NothingNoted(t: seq<int>, sa: seq<int>, top: int)
    requires |sa| == |t| && top == |t| - NumLms(t) && forall p :: 0 <= p < top ==> sa[p] == 0
    ensures HoldsNotes(t, sa, NoNotes(t))
  {
  }

  lemma MappedText(t: seq<int>, sa: seq<int>, v: seq<int>)
    requires Mapped(t, sa, v, LmsFrom(t, 0), |t| - NumLms(t))
    ensures |t| - NumLms(t) >= 0 && |sa| == |v| == |t|
    ensures forall k :: 0 <= k < |LmsFrom(t, 0)| ==> 0 <= LmsFrom(t, 0)[k] < |v|
    ensures sa[|t| - NumLms(t)..] == Reduced(v, LmsFrom(t, 0))
  {
  }

  /** Sorts the LMS suffixes into the bottom of the array. */
  method SortLms(text: Slice, textMax: nat, sa: Slice, w: Scratch, tmp: Slice, packed: bool, numLms: nat,
                 ghost s0: Scan, ghost keep: set<Slice>)
    returns (ghost u: seq<int>)
    requires Ready(text, textMax, sa, w, keep) && Setting(text, textMax, sa, tmp, keep) && w == ScratchOf(tmp, textMax)
    requires (packed ==> textMax == 256) && text.len < 0x8000_0000 && 1 < numLms == NumLms(text.View())
    requires var x := SubCtx(text.View(), textMax, FirstLms(text.View()));
             && About(x, text.View(), textMax) && ScanL.Seeded(x, s0)
             && Holds(sa.View(), s0.A) && s0.bk == LStarts(x)
    modifies sa.arr, tmp.arr
    ensures Ready(text, textMax, sa, w, keep)
    ensures forall u :: u in keep ==> u.View() == old(u.View())
    ensures SortedLms(text.View(), u) && |u| == numLms <= sa.len && sa.View()[..numLms] == u
    decreases text.len, 1
  {
    hide *;
    ghost var t := text.View();
    ghost var x := SubCtx(t, textMax, FirstLms(t));
    SubAbout(t, textMax);
    ghost var s := InduceSubL(text, textMax, sa, w, x, s0, keep);
    ghost var top;
    s, top := InduceSubS(text, textMax, sa, w, x, s, keep);
    ghost var l := LmsIn(t, s.A);
    AfterSubScans(x, s, sa.View(), top);
    ghost var v := Lengths(text, textMax, sa, w, packed, l, keep);
    var maxId;
    maxId, v := AssignIds(text, textMax, sa, w, packed, numLms, l, v, keep);
    if maxId < numLms {
      NamedPositive(t, l, v, packed);
      MapNames(text, textMax, sa, w, v, keep);
      MappedText(t, sa.View(), v);
      ReducedRenames(t, textMax, l, v, packed);
      LmsHalf(t);
      ghost var r := Reduced(v, LmsFrom(t, 0));
      Recurse(text, textMax, sa, w, tmp, numLms, maxId, r, keep);
      ghost var order := sa.View()[..numLms];
      UnmapSorts(t, r, order);
      Unmap(text, textMax, sa, w, numLms, order, keep);
      u := Unmapped(LmsFrom(t, 0), order);
    } else {
      CopyDown(text, textMax, sa, w, numLms, l, keep);
      DistinctSorts(t, textMax, l);
      u := l;
    }
  }

  /** Solves the subproblem: its text is at the top of the array, its suffix array goes to the
      bottom, and the cells between them may serve as its scratch space. */
  method Recurse(text: Slice, textMax: nat, sa: Slice, w: Scratch, tmp: Slice, numLms: nat, maxId: int,
                 ghost r: seq<int>, ghost keep: set<Slice>)
    requires Ready(text, textMax, sa, w, keep) && Setting(text, textMax, sa, tmp, keep) && w == ScratchOf(tmp, textMax)
    requires text.len < 0x8000_0000 && 1 < numLms && 2 * numLms < text.len && 0 < maxId < numLms
    requires sa.View()[sa.len - numLms..] == r && Symbols(r, maxId)
    modifies sa.arr, tmp.arr
    ensures Ready(text, textMax, sa, w, keep)
    ensures forall u :: u in keep ==> u.View() == old(u.View())
    ensures IsSuffixArray(r, sa.View()[..numLms])
    decreases text.len, 0
  {
    hide *;
    var dst, sub := sa.Sub(0, numLms), sa.Sub(sa.len - numLms, sa.len);
    SubView(sa, sa.len - numLms, sa.len);
    assert sub.View() == r;
    ReadyTmp(text, textMax, sa, w, tmp, keep);
    var tmp' := ChooseTmp(text, textMax, sa, tmp, numLms, maxId, keep);
    ghost var keep' := keep + {sub} + (if tmp' == tmp then {} else {tmp});
    ghost var kept := tmp.View();
    Clear(dst, keep');
    Sort(sub, maxId, dst, tmp', false, keep');
    SubView(sa, 0, numLms);
    assert dst.View() == sa.View()[..numLms];
    Rejoin(text, textMax, sa, w, tmp, kept, keep);
  }

  /** The scratch space of the subproblem: the old one, the middle of the array, or a new one.
      The subproblem has at least half as many scratch cells as symbols, and a problem that has
      them allocates none: there is at most one allocation in the whole recursion. */
  method ChooseTmp(text: Slice, textMax: nat, sa: Slice, tmp: Slice, numLms: nat, maxId: int, ghost keep: set<Slice>)
    returns (tmp': Slice)
    requires Setting(text, textMax, sa, tmp, keep) && 2 * numLms < text.len && 0 < maxId < numLms
    ensures tmp'.arr in {sa.arr, tmp.arr} || fresh(tmp'.arr)
    ensures numLms / 2 <= tmp'.len && (text.len / 2 <= tmp.len ==> tmp'.arr in {sa.arr, tmp.arr})
    ensures var sub := sa.Sub(sa.len - numLms, sa.len);
            Setting(sub, maxId, sa.Sub(0, numLms), tmp', keep + {sub} + (if tmp' == tmp then {} else {tmp}))
  {
    var saTmp := sa.Sub(numLms, sa.len - numLms);
    tmp' := tmp;
    if tmp'.len < saTmp.len {
      tmp' := saTmp;
    }
    if tmp'.len < numLms {
      var n := maxId;
      if n < numLms / 2 {
        n := numLms / 2;
      }
      var cells := new int32[n];
      tmp' := Slice(cells, 0, n);
    }
  }

  /** The scratch space holds no wrong frequencies. */
  ghost predicate Trusted(t: seq<int>, textMax: nat, tmp: seq<int>)
  {
    |tmp| >= 2 * textMax && |tmp| > 0 && tmp[0] >= 0 ==> IsCounts(t, textMax, tmp[..textMax])
  }

  lemma ReadyTmp(text: Slice, textMax: nat, sa: Slice, w: Scratch, tmp: Slice, keep: set<Slice>)
    requires Ready(text, textMax, sa, w, keep) && Setting(text, textMax, sa, tmp, keep) && w == ScratchOf(tmp, textMax)
    ensures Trusted(text.View(), textMax, tmp.View())
  {
    if w.freq.Some? {
      assert w.freq.value.View() == tmp.View()[..textMax];
    }
  }

  /** After the subproblem is solved, the level goes on: its cached frequencies are either
      untouched or marked as lost. */
  lemma Rejoin(text: Slice, textMax: nat, sa: Slice, w: Scratch, tmp: Slice, kept: seq<int>, keep: set<Slice>)
    requires Setting(text, textMax, sa, tmp, keep) && w == ScratchOf(tmp, textMax)
    requires 2 <= text.len < 0x8000_0000 && 0 < textMax && Symbols(text.View(), textMax)
    requires Trusted(text.View(), textMax, kept) && (tmp.View() == kept || tmp.View()[0] == -1)
    ensures Ready(text, textMax, sa, w, keep)
  {
    if w.freq.Some? {
      assert w.freq.value.View() == tmp.View()[..textMax];
    }
  }

  /** Computes the suffix array of a text over symbols below `textMax` into `sa`, which must
      be zeroed. `packed` selects the variant for bytes. */
  method Sort(text: Slice, textMax: nat, sa: Slice, tmp: Slice, packed: bool, ghost keep: set<Slice>)
    requires Setting(text, textMax, sa, tmp, keep) && Symbols(text.View(), textMax)
    requires (packed ==> textMax == 256) && text.len < 0x8000_0000
    requires forall p :: 0 <= p < sa.len ==> sa.View()[p] == 0
    modifies sa.arr, tmp.arr
    ensures IsSuffixArray(text.View(), sa.View())
    ensures forall u :: u in keep ==> u.View() == old(u.View())
    ensures 2 <= text.len ==> 0 < tmp.len && tmp.View()[0] == -1
    decreases text.len, 2
  {
    hide *;
    ghost var t := text.View();
    if text.len == 0 {
      Short(t, sa.View());
      return;
    }
    if text.len == 1 {
      SetFirst(sa, 0, keep);
      Short(t, sa.View());
      return;
    }
    var w := Prepare(text, textMax, sa, tmp, keep);
    var numLms;
    ghost var s;
    numLms, s := PlaceLms(text, textMax, sa, w, keep);
    ghost var x := SubCtx(t, textMax, FirstLms(t));
    SubAbout(t, textMax);
    FewRanked(t);
    if numLms > 1 {
      ghost var u := SortLms(text, textMax, sa, w, tmp, packed, numLms, s, keep);
      x := Ctx(t, textMax, Bounds(t, textMax), Ranks(t, u), 0);
      FinalAbout(t, textMax, u);
      RanksComplete(t, u);
      s := Expand(text, textMax, sa, w, numLms, x, u, keep);
    }
    s := InduceL(text, textMax, sa, w, x, s, keep);
    InduceS(text, textMax, sa, w, x, s, keep);
    MarkTmp(text, textMax, sa, tmp, keep);
  }

  lemma Short(t: seq<int>, sa: seq<int>)
    requires |sa| == |t| <= 1 && (|t| == 1 ==> sa[0] == 0)
    ensures IsSuffixArray(t, sa)
  {
    if |t| == 1 {
      assert 0 in sa;
    }
  }

  method SetFirst(s: Slice, v: int32, ghost keep: set<Slice>)
    requires s.Valid() && 0 < s.len && Apart(s, keep)
    modifies s.arr
    ensures s.View()[0] == v
    ensures forall u :: u in keep ==> u.View() == old(u.View())
  {
    s.Set(0, v, keep);
  }

  /** Tells the level above that the scratch space was used. */
  method MarkTmp(text: Slice, textMax: nat, sa: Slice, tmp: Slice, ghost keep: set<Slice>)
    requires Setting(text, textMax, sa, tmp, keep) && 0 < tmp.len
    modifies tmp.arr
    ensures tmp.View()[0] == -1 && sa.View() == old(sa.View())
    ensures forall u :: u in keep ==> u.View() == old(u.View())
  {
    tmp.Set(0, -1, keep + {sa});
  }

  lemma FinalAbout(t: seq<int>, textMax: nat, u: seq<int>)
    requires 0 < |t| && Symbols(t, textMax)
    ensures var x := Ctx(t, textMax, Bounds(t, textMax), Ranks(t, u), 0);
            About(x, t, textMax)
  {
  }

  /** A single LMS suffix is sorted as it is. */
  lemma FewRanked(t: seq<int>)
    ensures NumLms(t) == |LmsFrom(t, 0)|
    ensures NumLms(t) <= 1 ==> RankComplete(t, NoRanks(t)) && FirstLms(t) == 0
  {
    forall a: nat, b: nat | NumLms(t) <= 1 && IsLms(t, a) && IsLms(t, b) ensures !Less(t, a, b) {
      assert a in LmsFrom(t, 0) && b in LmsFrom(t, 0);
      LessTotal(t, a, a);
    }
  }
}
