/** Symbol frequencies and bucket offsets, and the cache that holds the former. */
module Frequencies {
  import opened Options
  import opened Slices
  import opened LmsTypes
  import opened Buckets

  ghost function Count(t: seq<int>, c: int): nat
  {
    |set p | 0 <= p < |t| && t[p] == c|
  }

  ghost predicate IsCounts(t: seq<int>, textMax: nat, f: seq<int>)
  {
    |f| == textMax && forall c :: 0 <= c < textMax ==> f[c] == Count(t, c)
  }

  /** The scratch space of one level: bucket offsets and, when there is room, frequencies. */
  datatype Scratch = Scratch(freq: Option<Slice>, bucket: Slice)
  {
    ghost predicate Valid(textMax: nat)
      ensures Valid(textMax) ==> bucket.Valid() && bucket.len == textMax
      ensures Valid(textMax) && freq.Some? ==> freq.value.Valid() && freq.value.len == textMax
    {
      && bucket.Valid() && bucket.len == textMax
      && (freq.Some? ==> freq.value.Valid() && freq.value.len == textMax && Disjoint(bucket, freq.value))
    }

    ghost function FreqSlices(): set<Slice>
    {
      if freq.Some? then {freq.value} else {}
    }

    ghost function FreqArrays(): set<object>
    {
      if freq.Some? then {freq.value.arr} else {}
    }

    /** A cached table is either marked as unusable in its first cell or it is right. */
    ghost predicate Coherent(t: seq<int>, textMax: nat)
      requires Valid(textMax)
      reads FreqArrays()
    {
      freq.Some? && 0 < textMax && freq.value.View()[0] >= 0 ==> IsCounts(t, textMax, freq.value.View())
    }

    ghost predicate ApartFrom(keep: set<Slice>)
      ensures ApartFrom(keep) ==> Apart(bucket, keep) && (freq.Some? ==> Apart(freq.value, keep))
      ensures ApartFrom(keep) ==> forall u :: u in keep ==> u.Valid()
    {
      Apart(bucket, keep) && (freq.Some? ==> Apart(freq.value, keep))
    }
  }

  lemma CountExtend(t: seq<int>, i: nat, c: int)
    requires i < |t|
    ensures Count(t[..i + 1], c) == Count(t[..i], c) + (if t[i] == c then 1 else 0)
  {
    var t0, t1 := t[..i], t[..i + 1];
    var before := set p | 0 <= p < |t0| && t0[p] == c;
    var after := set p | 0 <= p < |t1| && t1[p] == c;
    assert after == before + (if t[i] == c then {i} else {});
  }

  lemma CountEmpty(c: int)
    ensures Count([], c) == 0
  {
    var t: seq<int> := [];
    assert (set p | 0 <= p < |t| && t[p] == c) == {};
  }

  /** A bucket is as wide as its symbol is frequent. */
  lemma BucketWidth(t: seq<int>, textMax: nat, bd: seq<int>, c: nat)
    requires IsBounds(t, textMax, bd) && c < textMax
    ensures bd[2 * c + 2] == bd[2 * c] + Count(t, c)
  {
    hide Tabulates, HeadsBelow, Count;
    TabulatesAt(t, bd, |bd|, 2 * c);
    TabulatesAt(t, bd, |bd|, 2 * c + 2);
    BelowNext(t, c);
  }

  lemma BelowNext(t: seq<int>, c: nat)
    ensures |HeadsBelow(t, 2 * c + 2)| == |HeadsBelow(t, 2 * c)| + Count(t, c)
  {
    var here := set p | 0 <= p < |t| && t[p] == c;
    assert HeadsBelow(t, 2 * c + 2) == HeadsBelow(t, 2 * c) + here;
    assert HeadsBelow(t, 2 * c) !! here;
  }

  lemma CountsEmpty(t: seq<int>, textMax: nat, f: seq<int>)
    requires |f| == textMax && forall c :: 0 <= c < textMax ==> f[c] == 0
    ensures IsCounts(t[..0], textMax, f)
  {
    hide Count;
    assert t[..0] == [];
    forall c | 0 <= c < textMax ensures f[c] == Count([], c) {
      CountEmpty(c);
    }
  }

  lemma CountsStep(t: seq<int>, textMax: nat, f: seq<int>, i: nat)
    requires i < |t| && Symbols(t, textMax) && IsCounts(t[..i], textMax, f)
    ensures 0 <= t[i] < textMax == |f| && 0 <= f[t[i]] <= i
    ensures IsCounts(t[..i + 1], textMax, f[t[i] := f[t[i]] + 1])
  {
    hide Count;
    forall c | 0 <= c < textMax ensures Count(t[..i + 1], c) == Count(t[..i], c) + (if t[i] == c then 1 else 0) {
      CountExtend(t, i, c);
    }
    CountBound(t[..i], t[i]);
  }

  lemma CountBound(t: seq<int>, c: int)
    ensures Count(t, c) <= |t|
  {
    var here := set p | 0 <= p < |t| && t[p] == c;
    SubsetSize(here, Range(|t|));
  }

  /** Sets all cells to 0. */
  method Clear(s: Slice, ghost keep: set<Slice>)
    requires s.Valid() && Apart(s, keep)
    modifies s.arr
    ensures forall p :: 0 <= p < s.len ==> s.View()[p] == 0
    ensures forall u :: u in keep ==> u.View() == old(u.View())
  {
    for i := 0 to s.len
      invariant forall u :: u in keep ==> u.View() == old(u.View())
      invariant forall p :: 0 <= p < i ==> s.View()[p] == 0
    {
      s.Set(i, 0, keep);
    }
  }

  method FreqOf(text: Slice, textMax: nat, w: Scratch, ghost keep: set<Slice>) returns (f: Slice)
    requires w.Valid(textMax) && 0 < textMax && text in keep && w.ApartFrom(keep)
    requires text.Valid() && text.len < 0x8000_0000
    requires Symbols(text.View(), textMax) && w.Coherent(text.View(), textMax)
    modifies w.bucket.arr, w.FreqArrays()
    ensures f == if w.freq.Some? then w.freq.value else w.bucket
    ensures IsCounts(text.View(), textMax, f.View())
    ensures forall u :: u in keep ==> u.View() == old(u.View())
  {
    hide Count, IsCounts, Symbols, Apart, Slice.View;
    if w.freq.Some? && w.freq.value.Get(0) >= 0 {
      return w.freq.value;
    }
    f := if w.freq.Some? then w.freq.value else w.bucket;
    ghost var t := text.View();
    Clear(f, keep);
    CountsEmpty(t, textMax, f.View());
    for i := 0 to text.len
      invariant IsCounts(t[..i], textMax, f.View())
      invariant forall u :: u in keep ==> u.View() == old(u.View())
    {
      CountsStep(t, textMax, f.View(), i);
      var c := text.Get(i);
      f.Set(c, f.Get(c) + 1, keep);
    }
    assert t[..text.len] == t;
  }

  /** The boundaries of bucket `c`. */
  lemma BucketStep(t: seq<int>, textMax: nat, bd: seq<int>, c: nat)
    requires bd == Bounds(t, textMax) && c < textMax
    ensures |bd| == 2 * textMax + 1 && bd[2 * c + 2] == bd[2 * c] + Count(t, c)
    ensures 0 <= bd[2 * c] <= bd[2 * c + 2] <= |t|
  {
    hide Count, Bounds;
    BucketWidth(t, textMax, bd, c);
  }

  lemma FirstBound(t: seq<int>, textMax: nat)
    requires Symbols(t, textMax)
    ensures |Bounds(t, textMax)| == 2 * textMax + 1 && Bounds(t, textMax)[0] == 0
  {
  }

  /** The counts that have not been summed up yet. */
  ghost predicate CountsFrom(t: seq<int>, textMax: nat, f: seq<int>, i: nat)
  {
    |f| == textMax && forall c :: i <= c < textMax ==> f[c] == Count(t, c)
  }

  /** The offsets of the first `i` buckets: their starts, or their ends. */
  ghost predicate Offsets(bd: seq<int>, textMax: nat, ends: bool, bucket: seq<int>, i: nat)
    requires |bd| == 2 * textMax + 1
  {
    i <= textMax == |bucket| && forall c :: 0 <= c < i ==> bucket[c] == if ends then bd[2 * c + 2] else bd[2 * c]
  }

  /** Replaces a count by an offset. */
  method PutOffset(text: Slice, textMax: nat, w: Scratch, f: Slice, i: nat, v: int32, ends: bool,
                   ghost bd: seq<int>, ghost keep: set<Slice>)
    requires w.Valid(textMax) && text in keep && w.ApartFrom(keep) && f == if w.freq.Some? then w.freq.value else w.bucket
    requires i < textMax && |bd| == 2 * textMax + 1 && v == if ends then bd[2 * i + 2] else bd[2 * i]
    requires CountsFrom(text.View(), textMax, f.View(), i) && Offsets(bd, textMax, ends, w.bucket.View(), i)
    requires w.freq.Some? ==> IsCounts(text.View(), textMax, f.View())
    modifies w.bucket.arr
    ensures CountsFrom(text.View(), textMax, f.View(), i + 1) && Offsets(bd, textMax, ends, w.bucket.View(), i + 1)
    ensures w.freq.Some? ==> IsCounts(text.View(), textMax, f.View())
    ensures forall u :: u in keep ==> u.View() == old(u.View())
  {
    hide Count;
    w.bucket.Set(i, v, keep + w.FreqSlices());
  }

  lemma CountsAll(t: seq<int>, textMax: nat, f: seq<int>)
    requires IsCounts(t, textMax, f)
    ensures CountsFrom(t, textMax, f, 0)
  {
  }

  lemma CountAt(t: seq<int>, textMax: nat, f: seq<int>, i: nat)
    requires CountsFrom(t, textMax, f, i) && i < textMax
    ensures |f| == textMax && f[i] == Count(t, i)
  {
  }

  lemma NoOffsets(bd: seq<int>, textMax: nat, ends: bool, bucket: seq<int>)
    requires |bd| == 2 * textMax + 1 && |bucket| == textMax
    ensures Offsets(bd, textMax, ends, bucket, 0)
  {
  }

  /** Bucket starts. */
  method BucketMin(text: Slice, textMax: nat, w: Scratch, ghost keep: set<Slice>)
    requires w.Valid(textMax) && 0 < textMax && text in keep && w.ApartFrom(keep)
    requires text.Valid() && text.len < 0x8000_0000
    requires Symbols(text.View(), textMax) && w.Coherent(text.View(), textMax)
    modifies w.bucket.arr, w.FreqArrays()
    ensures w.Coherent(text.View(), textMax)
    ensures |Bounds(text.View(), textMax)| == 2 * textMax + 1
    ensures Offsets(Bounds(text.View(), textMax), textMax, false, w.bucket.View(), textMax)
    ensures forall u :: u in keep ==> u.View() == old(u.View())
  {
    hide Count, IsCounts, CountsFrom, Offsets, Bounds, Symbols, Apart, Slice.View;
    ghost var t, bd := text.View(), Bounds(text.View(), textMax);
    FirstBound(t, textMax);
    var f := FreqOf(text, textMax, w, keep);
    CountsAll(t, textMax, f.View());
    NoOffsets(bd, textMax, false, w.bucket.View());
    var total: int32 := 0;
    for i := 0 to textMax
      invariant total == bd[2 * i]
      invariant CountsFrom(t, textMax, f.View(), i) && Offsets(bd, textMax, false, w.bucket.View(), i)
      invariant w.freq.Some? ==> IsCounts(t, textMax, f.View())
      invariant forall u :: u in keep ==> u.View() == old(u.View())
    {
      BucketStep(t, textMax, bd, i);
      CountAt(t, textMax, f.View(), i);
      var n := f.Get(i);
      PutOffset(text, textMax, w, f, i, total, false, bd, keep);
      total := total + n;
    }
  }

  /** Bucket ends. */
  method BucketMax(text: Slice, textMax: nat, w: Scratch, ghost keep: set<Slice>)
    requires w.Valid(textMax) && 0 < textMax && text in keep && w.ApartFrom(keep)
    requires text.Valid() && text.len < 0x8000_0000
    requires Symbols(text.View(), textMax) && w.Coherent(text.View(), textMax)
    modifies w.bucket.arr, w.FreqArrays()
    ensures w.Coherent(text.View(), textMax)
    ensures |Bounds(text.View(), textMax)| == 2 * textMax + 1
    ensures Offsets(Bounds(text.View(), textMax), textMax, true, w.bucket.View(), textMax)
    ensures forall u :: u in keep ==> u.View() == old(u.View())
  {
    hide Count, IsCounts, CountsFrom, Offsets, Bounds, Symbols, Apart, Slice.View;
    ghost var t, bd := text.View(), Bounds(text.View(), textMax);
    FirstBound(t, textMax);
    var f := FreqOf(text, textMax, w, keep);
    CountsAll(t, textMax, f.View());
    NoOffsets(bd, textMax, true, w.bucket.View());
    var total: int32 := 0;
    for i := 0 to textMax
      invariant total == bd[2 * i]
      invariant CountsFrom(t, textMax, f.View(), i) && Offsets(bd, textMax, true, w.bucket.View(), i)
      invariant w.freq.Some? ==> IsCounts(t, textMax, f.View())
      invariant forall u :: u in keep ==> u.View() == old(u.View())
    {
      BucketStep(t, textMax, bd, i);
      CountAt(t, textMax, f.View(), i);
      total := total + f.Get(i);
      PutOffset(text, textMax, w, f, i, total, true, bd, keep);
    }
  }
}
