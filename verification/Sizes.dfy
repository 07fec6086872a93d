/** How large the compressed stream can get. */
module Sizes {
  import opened Bits
  import opened Phrases
  import opened BackRefs
  import opened Greedy

  /** The number of bytes from `i` to `j` that have no literal. */
  ghost function Reserved(d: seq<byte>, i: nat, j: nat): nat
    requires i <= j <= |d|
    decreases j - i
  {
    if i == j then 0 else (if CanEncode(d[i]) then 0 else 1) + Reserved(d, i + 1, j)
  }

  lemma {:induction false} ReservedSplit(d: seq<byte>, i: nat, k: nat, j: nat)
    requires i <= k <= j <= |d|
    ensures Reserved(d, i, j) == Reserved(d, i, k) + Reserved(d, k, j)
    decreases k - i
  {
    if i < k {
      ReservedSplit(d, i + 1, k, j);
    }
  }

  lemma {:induction false} ReservedPrefix(d: seq<byte>, e: seq<byte>, i: nat, j: nat)
    requires d <= e && i <= j <= |d|
    ensures Reserved(e, i, j) == Reserved(d, i, j)
    decreases j - i
  {
    if i < j {
      ReservedPrefix(d, e, i + 1, j);
    }
  }

  /** A phrase costs at most eight bits a byte, and 29 more if it starts at a reserved byte. */
  ghost predicate Cheap(d: seq<byte>, i: nat, p: Phrase)
  {
    i < |d| && Cost(p) <= 8 * Span(p) + (if CanEncode(d[i]) then 0 else 29)
  }

  ghost predicate AllCheap(d: seq<byte>, i: nat, ps: seq<Phrase>)
    decreases |ps|
  {
    ps == [] || (Cheap(d, i, ps[0]) && AllCheap(d, i + Span(ps[0]), ps[1..]))
  }

  lemma {:induction false} CheapTotal(dict: seq<byte>, d: seq<byte>, i: nat, j: nat, ps: seq<Phrase>)
    requires i <= j <= |d| && Covers(dict, d, i, j, ps) && AllCheap(d, i, ps)
    ensures TotalCost(ps) <= 8 * (j - i) + 29 * Reserved(d, i, j)
    decreases |ps|
  {
    hide Means, Reserved, Cost;
    if ps != [] {
      var k := i + Span(ps[0]);
      CoversForm(dict, d, k, j, ps[1..]);
      CheapTotal(dict, d, k, j, ps[1..]);
      ReservedSplit(d, i, k, j);
      ReservedFirst(d, i, k);
    }
  }

  lemma ReservedFirst(d: seq<byte>, i: nat, k: nat)
    requires i < k <= |d|
    ensures Reserved(d, i, k) >= if CanEncode(d[i]) then 0 else 1
  {
  }

  lemma StepCheap(c: Coder, d: seq<byte>, i: nat)
    requires c.Valid() && i < |d|
    ensures AllCheap(d, i, Step(c, d, i))
  {
    hide BestRef, RunFrom, Means;
    BestMeans(c, d, i);
    StepCovers(c, d, i);
    var ps := Step(c, d, i);
    if |ps| == 2 {
      CheapTwo(d, i, ps[0], ps[1]);
      assert ps == [ps[0], ps[1]];
    } else {
      CheapOne(d, i, ps[0]);
      assert ps == [ps[0]];
    }
  }

  lemma CheapOne(d: seq<byte>, i: nat, p: Phrase)
    requires Cheap(d, i, p)
    ensures AllCheap(d, i, [p])
  {
    assert [p][1..] == [];
  }

  lemma CheapTwo(d: seq<byte>, i: nat, p: Phrase, q: Phrase)
    requires Cheap(d, i, p) && Cheap(d, i + Span(p), q)
    ensures AllCheap(d, i, [p, q])
  {
    CheapOne(d, i + Span(p), q);
    assert [p, q][1..] == [q];
  }

  lemma {:induction false} AllCheapConcat(d: seq<byte>, i: nat, ps: seq<Phrase>, qs: seq<Phrase>)
    requires AllCheap(d, i, ps) && AllCheap(d, i + TotalSpan(ps), qs)
    ensures AllCheap(d, i, ps + qs)
    decreases |ps|
  {
    hide Cheap;
    if ps == [] {
      assert ps + qs == qs;
    } else {
      AllCheapConcat(d, i + Span(ps[0]), ps[1..], qs);
      assert (ps + qs)[1..] == ps[1..] + qs;
    }
  }

  lemma {:induction false} EmitCheap(c: Coder, d: seq<byte>, i: nat)
    requires c.Valid() && i <= |d|
    ensures AllCheap(d, i, Emit(c, d, i))
    decreases |d| - i
  {
    hide Step, Cheap;
    if i < |d| {
      StepCovers(c, d, i);
      StepCheap(c, d, i);
      var ps := Step(c, d, i);
      EmitCheap(c, d, i + TotalSpan(ps));
      AllCheapConcat(d, i, ps, Emit(c, d, i + TotalSpan(ps)));
    }
  }

  /** The emitted phrases take at most eight bits a byte, and 29 more per reserved byte. */
  lemma EmitCost(c: Coder, d: seq<byte>, i: nat)
    requires c.Valid() && i <= |d|
    ensures TotalCost(Emit(c, d, i)) <= 8 * (|d| - i) + 29 * Reserved(d, i, |d|)
  {
    EmitCovers(c, d, i);
    EmitCheap(c, d, i);
    CheapTotal(c.dict, d, i, |d|, Emit(c, d, i));
  }
}
