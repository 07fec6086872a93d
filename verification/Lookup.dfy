/** The index: longest-match queries answered by nested binary searches over a suffix array. */
module Lookup {
  import opened Suffixes
  import opened Slices
  import opened Bits
  import Sais

  // ----- Patterns and suffixes -----

  predicate HasPrefix(d: seq<int>, p: nat, s: seq<int>)
  {
    p + |s| <= |d| && d[p..p + |s|] == s
  }

  /** The suffix at `p` is lexicographically smaller than the pattern `s`. */
  predicate Below(d: seq<int>, p: nat, s: seq<int>)
    requires p <= |d|
    decreases |s|
  {
    s != [] && (p == |d| || d[p] < s[0] || (d[p] == s[0] && Below(d, p + 1, s[1..])))
  }

  lemma {:induction false} PrefixNotBelow(d: seq<int>, p: nat, s: seq<int>)
    requires HasPrefix(d, p, s)
    ensures !Below(d, p, s)
    decreases |s|
  {
    if s != [] {
      PrefixTail(d, p, s);
      PrefixNotBelow(d, p + 1, s[1..]);
    }
  }

  lemma PrefixTail(d: seq<int>, p: nat, s: seq<int>)
    requires p < |d| && s != []
    ensures HasPrefix(d, p, s) <==> d[p] == s[0] && HasPrefix(d, p + 1, s[1..])
  {
    if p + |s| <= |d| {
      assert d[p..p + |s|] == [d[p]] + d[p + 1..p + |s|];
    }
  }

  /** Once a suffix is not below the pattern, no later one is. */
  lemma {:induction false} BelowMonotone(d: seq<int>, p: nat, q: nat, s: seq<int>)
    requires p <= |d| && q <= |d| && Less(d, p, q) && Below(d, q, s)
    ensures Below(d, p, s)
    decreases |s|
  {
    if p < |d| && d[p] == d[q] == s[0] {
      BelowMonotone(d, p + 1, q + 1, s[1..]);
    }
  }

  /** The suffixes that start with the pattern come first among those not below it. */
  lemma {:induction false} PrefixFirst(d: seq<int>, p: nat, q: nat, s: seq<int>)
    requires p <= |d| && q <= |d| && Less(d, p, q) && !Below(d, p, s) && HasPrefix(d, q, s)
    ensures HasPrefix(d, p, s)
    decreases |s|
  {
    if s != [] {
      PrefixTail(d, q, s);
      assert p < |d|;
      PrefixTail(d, p, s);
      PrefixFirst(d, p + 1, q + 1, s[1..]);
    }
  }

  lemma PrefixShorter(d: seq<int>, p: nat, s: seq<int>, k: nat, m: nat)
    requires k <= m <= |s| && HasPrefix(d, p, s[..m])
    ensures HasPrefix(d, p, s[..k])
  {
    assert d[p..p + k] == d[p..p + m][..k] == s[..m][..k] == s[..k];
  }

  // ----- Queries -----

  /** The first `k` symbols of `s` occur at `p`, and `p` lies in the window. */
  ghost predicate Occurs(d: seq<int>, s: seq<int>, k: nat, lo: int, hi: int, p: int)
    requires k <= |s|
  {
    lo <= p < hi && 0 <= p < |d| && HasPrefix(d, p, s[..k])
  }

  /** `(index, length)` is the longest match of `s` between `minEnd` and `maxEnd` symbols at a
      position of the window, the one with the smallest suffix if there are several. */
  ghost predicate IsLongest(d: seq<int>, s: seq<int>, minEnd: nat, maxEnd: nat, lo: int, hi: int, index: int, length: int)
    requires minEnd <= maxEnd <= |s|
  {
    if length == -1 then index == -1 && forall p :: !Occurs(d, s, minEnd, lo, hi, p)
    else
      && minEnd <= length <= maxEnd && IsFirst(d, s, length, lo, hi, index)
      && (forall k, p :: length < k <= maxEnd ==> !Occurs(d, s, k, lo, hi, p))
  }

  /** `index` is the occurrence with the smallest suffix. */
  ghost predicate IsFirst(d: seq<int>, s: seq<int>, k: nat, lo: int, hi: int, index: int)
    requires k <= |s|
  {
    && Occurs(d, s, k, lo, hi, index)
    && forall p :: Occurs(d, s, k, lo, hi, p) && p != index ==> Less(d, index, p)
  }

  lemma LongestUnique(d: seq<int>, s: seq<int>, minEnd: nat, maxEnd: nat, lo: int, hi: int,
                      i1: int, l1: int, i2: int, l2: int)
    requires minEnd <= maxEnd <= |s|
    requires IsLongest(d, s, minEnd, maxEnd, lo, hi, i1, l1) && IsLongest(d, s, minEnd, maxEnd, lo, hi, i2, l2)
    ensures i1 == i2 && l1 == l2
  {
    if l1 != -1 {
      PrefixShorter(d, i1, s, minEnd, l1);
    }
    if l2 != -1 {
      PrefixShorter(d, i2, s, minEnd, l2);
    }
    assert l1 != -1 ==> Occurs(d, s, minEnd, lo, hi, i1);
    assert l2 != -1 ==> Occurs(d, s, minEnd, lo, hi, i2);
    if l1 != -1 && l2 != -1 {
      LessTotal(d, i1, i2);
    }
  }

  /** Binary search for the first index at which a monotone condition holds. */
  method Search(n: nat, f: nat -> bool) returns (i: nat)
    requires forall a, b :: 0 <= a < b < n && f(a) ==> f(b)
    ensures i <= n && (forall a :: 0 <= a < i ==> !f(a)) && (forall a :: i <= a < n ==> f(a))
  {
    i := 0;
    var j := n;
    while i < j
      invariant 0 <= i <= j <= n
      invariant (forall a :: 0 <= a < i ==> !f(a)) && (forall a :: j <= a < n ==> f(a))
    {
      var h := (i + j) / 2;
      if !f(h) {
        i := h + 1;
      } else {
        j := h;
      }
    }
  }

  // ----- The index -----

  datatype Index = Index(data: seq<byte>, sa: seq<int>)
  {
    ghost predicate Valid()
      ensures Valid() ==> |sa| == |data| && forall a :: 0 <= a < |sa| ==> 0 <= sa[a] < |data|
    {
      IsSuffixArray(data, sa)
    }
  }

  /** Builds the index of a byte string. */
  method New(data: seq<byte>) returns (x: Index)
    requires |data| < 0x8000_0000
    ensures x.Valid() && x.data == data
  {
    var text, sa, tmp := new int32[|data|], new int32[|data|], new int32[2 * 256];
    for i := 0 to |data|
      invariant text[..i] == data[..i] && forall p :: 0 <= p < i ==> sa[p] == 0
    {
      text[i], sa[i] := data[i], 0;
    }
    var t := Slice(text, 0, |data|);
    assert t.View() == data;
    Sais.Sort(t, 256, Slice(sa, 0, |data|), Slice(tmp, 0, 512), true, {t});
    assert sa[..] == Slice(sa, 0, |data|).View();
    x := Index(data, sa[..]);
  }

  /** The suffixes that start with `s` are all at indices from `lo` up to `hi`. */
  ghost predicate Within(x: Index, s: seq<int>, lo: int, hi: int)
    requires x.Valid()
  {
    forall a :: 0 <= a < |x.sa| && HasPrefix(x.data, x.sa[a], s) ==> lo <= a < hi
  }

  lemma BelowUpTo(x: Index, s: seq<int>, a: nat, b: nat)
    requires x.Valid() && a < b < |x.sa|
    ensures Below(x.data, x.sa[b], s) ==> Below(x.data, x.sa[a], s)
    ensures !Below(x.data, x.sa[a], s) && HasPrefix(x.data, x.sa[b], s) ==> HasPrefix(x.data, x.sa[a], s)
  {
    assert Less(x.data, x.sa[a], x.sa[b]);
    if Below(x.data, x.sa[b], s) {
      BelowMonotone(x.data, x.sa[a], x.sa[b], s);
    } else if !Below(x.data, x.sa[a], s) && HasPrefix(x.data, x.sa[b], s) {
      PrefixFirst(x.data, x.sa[a], x.sa[b], s);
    }
  }

  /** The first index from `lo` on, before `hi`, whose suffix is not below `s`. */
  method LowerBound(x: Index, s: seq<int>, lo: nat, hi: nat) returns (i: nat)
    requires x.Valid() && lo <= hi <= |x.sa|
    ensures lo <= i <= hi && (forall a :: lo <= a < i ==> Below(x.data, x.sa[a], s))
    ensures forall a :: i <= a < hi ==> !Below(x.data, x.sa[a], s)
  {
    hide Below, IsSuffixArray;
    var f := (i: nat) => i < hi - lo && !Below(x.data, x.sa[i + lo], s);
    forall a, b | 0 <= a < b < hi - lo && f(a) ensures f(b) {
      BelowUpTo(x, s, a + lo, b + lo);
    }
    i := Search(hi - lo, f);
    forall a | lo <= a < i + lo ensures Below(x.data, x.sa[a], s) {
      assert !f(a - lo);
    }
    forall a | i + lo <= a < hi ensures !Below(x.data, x.sa[a], s) {
      assert f(a - lo);
    }
    i := i + lo;
  }

  /** The block of suffixes that start with `s`, or -1 if there is none. */
  method LookupInitial(x: Index, s: seq<int>) returns (rStart: int, rEnd: int)
    requires x.Valid()
    ensures rStart == -1 ==> rEnd == -1 && forall a :: 0 <= a < |x.sa| ==> !HasPrefix(x.data, x.sa[a], s)
    ensures rStart != -1 ==>
              && 0 <= rStart < rEnd <= |x.sa|
              && forall a :: 0 <= a < |x.sa| ==> (HasPrefix(x.data, x.sa[a], s) <==> rStart <= a < rEnd)
  {
    hide Below, HasPrefix, IsSuffixArray;
    var i := LowerBound(x, s, 0, |x.sa|);
    forall a | 0 <= a < |x.sa| && HasPrefix(x.data, x.sa[a], s) ensures i <= a {
      PrefixNotBelow(x.data, x.sa[a], s);
    }
    if i == |x.sa| || !HasPrefix(x.data, x.sa[i], s) {
      forall a | i < a < |x.sa| ensures !HasPrefix(x.data, x.sa[a], s) {
        BelowUpTo(x, s, i, a);
      }
      return -1, -1;
    }
    var f := (k: nat) => k < |x.sa| - i && !HasPrefix(x.data, x.sa[k + i], s);
    forall a, b | 0 <= a < b < |x.sa| - i && f(a) ensures f(b) {
      BelowUpTo(x, s, a + i, b + i);
    }
    var j := Search(|x.sa| - i, f);
    forall a | i <= a < |x.sa| ensures HasPrefix(x.data, x.sa[a], s) <==> a < i + j {
      assert f(a - i) <==> j <= a - i;
    }
    assert !f(0);
    return i, i + j;
  }

  /** The first suffix, between indices `sStart` and `sEnd`, that starts with the first `k`
      symbols of `s` at a position of the window. */
  method LookupFiltered(x: Index, s: seq<int>, k: nat, lo: int, hi: int, sStart: nat, sEnd: nat)
    returns (rStart: nat, offset: int)
    requires x.Valid() && k <= |s| && sStart <= sEnd <= |x.sa| && Within(x, s[..k], sStart, sEnd)
    ensures offset == -1 ==> forall p :: !Occurs(x.data, s, k, lo, hi, p)
    ensures offset != -1 ==> IsFirst(x.data, s, k, lo, hi, offset)
    ensures rStart <= sEnd && Within(x, s[..k], rStart, sEnd)
  {
    hide Below, HasPrefix, IsSuffixArray, Occurs, IsFirst;
    rStart := sStart;
    var t := s[..k];
    var i := LowerBound(x, t, sStart, sEnd);
    forall a | sStart <= a < sEnd && HasPrefix(x.data, x.sa[a], t) ensures i <= a {
      PrefixNotBelow(x.data, x.sa[a], t);
    }
    if i == sEnd || !HasPrefix(x.data, x.sa[i], t) {
      forall a | i < a < sEnd ensures !HasPrefix(x.data, x.sa[a], t) {
        BelowUpTo(x, t, i, a);
      }
      NoneOccurs(x, s, k, lo, hi, |x.sa|);
      return rStart, -1;
    }
    rStart := i;
    while i < sEnd && HasPrefix(x.data, x.sa[i], t)
      invariant rStart <= i <= sEnd
      invariant rStart < i ==> HasPrefix(x.data, x.sa[i - 1], t)
      invariant forall a :: 0 <= a < i && HasPrefix(x.data, x.sa[a], t) ==> !(lo <= x.sa[a] < hi)
    {
      offset := x.sa[i];
      if lo <= offset < hi {
        FirstOccurs(x, s, k, lo, hi, i);
        return;
      }
      i := i + 1;
    }
    forall a | i < a < sEnd ensures !HasPrefix(x.data, x.sa[a], t) {
      if i < sEnd {
        PrefixNotBelow(x.data, x.sa[rStart], t);
        BelowUpTo(x, t, rStart, i);
        BelowUpTo(x, t, i, a);
      }
    }
    NoneOccurs(x, s, k, lo, hi, i);
    offset := -1;
  }

  lemma NoneOccurs(x: Index, s: seq<int>, k: nat, lo: int, hi: int, i: nat)
    requires x.Valid() && k <= |s| && i <= |x.sa|
    requires forall a :: 0 <= a < i && HasPrefix(x.data, x.sa[a], s[..k]) ==> !(lo <= x.sa[a] < hi)
    requires forall a :: i <= a < |x.sa| ==> !HasPrefix(x.data, x.sa[a], s[..k])
    ensures forall p :: !Occurs(x.data, s, k, lo, hi, p)
  {
    forall p ensures !Occurs(x.data, s, k, lo, hi, p) {
      if 0 <= p < |x.data| {
        assert p in x.sa;
      }
    }
  }

  lemma FirstOccurs(x: Index, s: seq<int>, k: nat, lo: int, hi: int, i: nat)
    requires x.Valid() && k <= |s| && i < |x.sa|
    requires forall a :: 0 <= a < i && HasPrefix(x.data, x.sa[a], s[..k]) ==> !(lo <= x.sa[a] < hi)
    requires HasPrefix(x.data, x.sa[i], s[..k]) && lo <= x.sa[i] < hi
    ensures IsFirst(x.data, s, k, lo, hi, x.sa[i])
  {
    forall p | Occurs(x.data, s, k, lo, hi, p) && p != x.sa[i] ensures Less(x.data, x.sa[i], p) {
      assert p in x.sa;
      var b :| 0 <= b < |x.sa| && x.sa[b] == p;
      assert i < b;
    }
  }

  /** The filter loop: whether the shortest match occurs in the window at all. */
  method FirstInWindow(x: Index, s: seq<int>, k: nat, lo: int, hi: int, sStart: nat, sEnd: nat)
    returns (index: int, length: int)
    requires x.Valid() && k <= |s| && sStart <= sEnd <= |x.sa|
    requires forall a :: 0 <= a < |x.sa| ==> (HasPrefix(x.data, x.sa[a], s[..k]) <==> sStart <= a < sEnd)
    ensures length == -1 ==> index == -1 && forall p :: !Occurs(x.data, s, k, lo, hi, p)
    ensures length != -1 ==> length == k && IsFirst(x.data, s, k, lo, hi, index)
  {
    hide HasPrefix, IsSuffixArray, Occurs, IsFirst;
    for i := sStart to sEnd
      invariant forall a :: sStart <= a < i ==> !(lo <= x.sa[a] < hi)
    {
      var offset := x.sa[i];
      if lo <= offset < hi {
        FirstOccurs(x, s, k, lo, hi, i);
        return offset, k;
      }
    }
    NoneOccurs(x, s, k, lo, hi, sEnd);
    return -1, -1;
  }

  lemma WithinLonger(x: Index, s: seq<int>, k: nat, m: nat, lo: int, hi: int)
    requires x.Valid() && k <= m <= |s| && Within(x, s[..k], lo, hi)
    ensures Within(x, s[..m], lo, hi)
  {
    forall a | 0 <= a < |x.sa| && HasPrefix(x.data, x.sa[a], s[..m]) ensures lo <= a < hi {
      PrefixShorter(x.data, x.sa[a], s, k, m);
    }
  }

  lemma OccursShorter(d: seq<int>, s: seq<int>, k: nat, m: nat, lo: int, hi: int, p: int)
    requires k <= m <= |s| && Occurs(d, s, m, lo, hi, p)
    ensures Occurs(d, s, k, lo, hi, p)
  {
    PrefixShorter(d, p, s, k, m);
  }

  lemma NoneLonger(d: seq<int>, s: seq<int>, k: nat, maxEnd: nat, lo: int, hi: int)
    requires k <= maxEnd <= |s| && forall p :: !Occurs(d, s, k, lo, hi, p)
    ensures forall m, p :: k <= m <= maxEnd ==> !Occurs(d, s, m, lo, hi, p)
  {
    forall m, p | k <= m <= maxEnd ensures !Occurs(d, s, m, lo, hi, p) {
      if Occurs(d, s, m, lo, hi, p) {
        OccursShorter(d, s, k, m, lo, hi, p);
      }
    }
  }

  /** The longest match: the block of the shortest match is narrowed from the left while a
      binary search over lengths proceeds. A block is never empty, so the case of a block
      without suffixes does not arise. */
  method LookupLongest(x: Index, s: seq<int>, minEnd: nat, maxEnd: nat, lo: int, hi: int) returns (index: int, length: int)
    requires x.Valid() && minEnd <= maxEnd <= |s|
    ensures IsLongest(x.data, s, minEnd, maxEnd, lo, hi, index, length)
  {
    var sStart, sEnd := LookupInitial(x, s[..minEnd]);
    if sStart == -1 {
      NoneOccurs(x, s, minEnd, lo, hi, 0);
      return -1, -1;
    }
    index, length := FirstInWindow(x, s, minEnd, lo, hi, sStart, sEnd);
    if length == -1 {
      return;
    }
    hide Occurs, Below, HasPrefix, IsFirst;
    var low, high := minEnd, maxEnd;
    while low <= high
      invariant minEnd <= length <= low <= length + 1 && length <= high <= maxEnd
      invariant 0 <= sStart <= sEnd <= |x.sa| && Within(x, s[..length], sStart, sEnd)
      invariant IsFirst(x.data, s, length, lo, hi, index)
      invariant forall k, p :: high < k <= maxEnd ==> !Occurs(x.data, s, k, lo, hi, p)
      decreases high - low
    {
      var mid := low + (high - low) / 2;
      WithinLonger(x, s, length, mid, sStart, sEnd);
      var newStart, offset := LookupFiltered(x, s, mid, lo, hi, sStart, sEnd);
      if offset != -1 {
        sStart := newStart;
        index := offset;
        length := mid;
        low := mid + 1;
      } else {
        NoneLonger(x.data, s, mid, maxEnd, lo, hi);
        FirstIsOne(x.data, s, length, lo, hi, index);
        high := mid - 1;
      }
    }
  }

  lemma FirstIsOne(d: seq<int>, s: seq<int>, k: nat, lo: int, hi: int, index: int)
    requires k <= |s| && IsFirst(d, s, k, lo, hi, index)
    ensures Occurs(d, s, k, lo, hi, index)
  {
  }
}
