/** The compression loop: which phrases are emitted for which data. */
module Greedy {
  import opened Options
  import opened Bits
  import opened Phrases
  import opened Lookup
  import opened BackRefs

  const MIN_REPEATING_BYTES := 160

  /** What the loop knows about the dictionary: its bytes, and where the reserved ones are. */
  datatype Coder = Coder(dict: seq<byte>, reserved: map<byte, int>)
  {
    ghost predicate Valid()
    {
      && Complete(dict)
      && forall b: byte :: !CanEncode(b) ==> b in reserved && 0 <= reserved[b] < |dict| && dict[reserved[b]] == b
    }
  }

  /** The reference as a phrase at position `i`. */
  function ToPhrase(b: Backref, i: nat): (p: Phrase)
    requires b.length >= 1 && Distance(b, i) >= 1
  {
    Ref(b.kind, Distance(b, i), b.length)
  }

  /** The number of bytes from `i` on that equal the one at `i`, counted from `n`. */
  ghost function RunFrom(d: seq<byte>, i: nat, n: nat): (count: nat)
    requires i < |d| && i + n <= |d| && n <= 256
    requires forall k :: i <= k < i + n ==> d[k] == d[i]
    ensures n <= count <= 256 && i + count <= |d| && forall k :: i <= k < i + count ==> d[k] == d[i]
    ensures count < 256 && i + count < |d| ==> d[i + count] != d[i]
    decreases |d| - i - n
  {
    if i + n < |d| && n < 256 && d[i] == d[i + n] then RunFrom(d, i, n + 1) else n
  }

  /** The byte that a run is copied from, if the byte before the run does not serve. */
  ghost function RunLead(c: Coder, d: seq<byte>, i: nat): (ps: seq<Phrase>)
    requires c.Valid() && i < |d|
    ensures |ps| <= 1
  {
    if i > 0 && d[i - 1] == d[i] then []
    else if CanEncode(d[i]) then [Literal(d[i])]
    else [ToPhrase(Backref(Dynamic, c.reserved[d[i]], 1, |c.dict|), i)]
  }

  function RunRef(dictLen: nat, i: nat, count: int): Backref
  {
    var short := Backref(Short, i - 1, count, 0);
    var dynamic := Backref(Dynamic, dictLen + i - 1, count, dictLen);
    if Savings(short) > Savings(dynamic) then short else dynamic
  }

  /** What one round of the loop emits at `i`. */
  ghost function Step(c: Coder, d: seq<byte>, i: nat): (ps: seq<Phrase>)
    requires c.Valid() && i < |d|
  {
    var count := RunFrom(d, i, 0);
    if count >= MIN_REPEATING_BYTES then
      var lead := RunLead(c, d, i);
      var k := i + |lead|;
      lead + [ToPhrase(RunRef(|c.dict|, k, count - |lead|), k)]
    else
      var b := BestRef(c.dict, d, i);
      BestMeans(c, d, i);
      if !CanEncode(d[i]) then [ToPhrase(b, i)]
      else if Savings(b) < 0 then [Literal(d[i])]
      else if i + 1 < |d| && Savings(BestRef(c.dict, d, i + 1)) > Savings(b) + 1 then [Literal(d[i])]
      else if i + 2 < |d| && CanEncode(d[i + 1]) && Savings(BestRef(c.dict, d, i + 2)) > Savings(b) + 2
      then [Literal(d[i]), Literal(d[i + 1])]
      else [ToPhrase(b, i)]
  }

  // ----- What the phrases stand for -----

  /** The phrase stands for the bytes of `d` at `i`. */
  ghost predicate Means(dict: seq<byte>, d: seq<byte>, i: nat, p: Phrase)
    ensures Means(dict, d, i, p) ==> WellFormed(p) && 1 <= Span(p) && i + Span(p) <= |d|
  {
    match p
    case Literal(b) => i < |d| && d[i] == b && CanEncode(b)
    case Ref(kind, dist, len) => IsRef(dict, d, i, kind, dist, len)
  }

  /** The phrases stand, one after the other, for the bytes of `d` from `i` to `j`. */
  ghost predicate Covers(dict: seq<byte>, d: seq<byte>, i: nat, j: nat, ps: seq<Phrase>)
    decreases |ps|
  {
    if ps == [] then i == j
    else Means(dict, d, i, ps[0]) && Covers(dict, d, i + Span(ps[0]), j, ps[1..])
  }

  lemma {:induction false} CoversConcat(dict: seq<byte>, d: seq<byte>, i: nat, j: nat, k: nat,
                                        ps: seq<Phrase>, qs: seq<Phrase>)
    requires Covers(dict, d, i, j, ps) && Covers(dict, d, j, k, qs)
    ensures Covers(dict, d, i, k, ps + qs)
    decreases |ps|
  {
    hide Means;
    if ps == [] {
      assert ps + qs == qs;
    } else {
      CoversConcat(dict, d, i + Span(ps[0]), j, k, ps[1..], qs);
      assert (ps + qs)[1..] == ps[1..] + qs;
    }
  }

  lemma {:induction false} CoversForm(dict: seq<byte>, d: seq<byte>, i: nat, j: nat, ps: seq<Phrase>)
    requires Covers(dict, d, i, j, ps) && i <= |d|
    ensures AllWellFormed(ps) && i <= j <= |d| && TotalSpan(ps) == j - i && |ps| <= j - i
    decreases |ps|
  {
    hide Means;
    if ps != [] {
      CoversForm(dict, d, i + Span(ps[0]), j, ps[1..]);
    }
  }

  lemma CoversOne(dict: seq<byte>, d: seq<byte>, i: nat, p: Phrase)
    requires Means(dict, d, i, p)
    ensures Covers(dict, d, i, i + Span(p), [p])
  {
    hide Means;
    assert [p][1..] == [];
  }

  lemma BestMeans(c: Coder, d: seq<byte>, i: nat)
    requires c.Valid() && i < |d|
    ensures var b := BestRef(c.dict, d, i);
            && (!CanEncode(d[i]) ==> b.length != -1)
            && (Savings(b) >= 0 ==> b.length != -1)
            && (b.length != -1 ==>
                  && b.length >= 1 && Distance(b, i) >= 1 && Means(c.dict, d, i, ToPhrase(b, i))
                  && (CanEncode(d[i]) ==> Savings(b) >= 0))
  {
    hide BestRef;
    BestIsRef(c.dict, d, i);
    if !CanEncode(d[i]) {
      BestReserved(c.dict, d, i);
    }
  }

  /** A run is a repetition at distance 1. */
  lemma RunMeans(c: Coder, d: seq<byte>, i: nat, len: nat)
    requires 0 < i && 1 <= len <= 256 && i + len <= |d|
    requires forall k :: i - 1 <= k < i + len ==> d[k] == d[i - 1]
    ensures var b := RunRef(|c.dict|, i, len);
            b.length == len && Distance(b, i) == 1 && Means(c.dict, d, i, ToPhrase(b, i))
  {
    assert d[i - 1..i - 1 + len] == d[i..i + len];
  }

  lemma LeadMeans(c: Coder, d: seq<byte>, i: nat)
    requires c.Valid() && i < |d|
    ensures var lead := RunLead(c, d, i);
            && Covers(c.dict, d, i, i + |lead|, lead)
            && (lead == [] ==> i > 0 && d[i - 1] == d[i])
  {
    var lead := RunLead(c, d, i);
    if lead != [] {
      if !CanEncode(d[i]) {
        var p := c.reserved[d[i]];
        assert c.dict[p..p + 1] == [c.dict[p]];
        assert d[i..i + 1] == [d[i]];
      }
      CoversOne(c.dict, d, i, lead[0]);
    }
  }

  /** Each round emits phrases for at least one byte and for none beyond the end. */
  lemma StepCovers(c: Coder, d: seq<byte>, i: nat)
    requires c.Valid() && i < |d|
    ensures var ps := Step(c, d, i);
            0 < TotalSpan(ps) <= |d| - i && Covers(c.dict, d, i, i + TotalSpan(ps), ps)
  {
    hide *;
    var ps := Step(c, d, i);
    var j := StepCoversTo(c, d, i);
    CoversForm(c.dict, d, i, j, ps);
  }

  lemma StepCoversTo(c: Coder, d: seq<byte>, i: nat) returns (j: nat)
    requires c.Valid() && i < |d|
    ensures i < j <= |d| && Covers(c.dict, d, i, j, Step(c, d, i))
  {
    hide BestRef, Means, Savings;
    var count := RunFrom(d, i, 0);
    if count >= MIN_REPEATING_BYTES {
      j := RunCovers(c, d, i, count);
    } else {
      BestMeans(c, d, i);
      LiteralMeans(c.dict, d, i);
      var ps := Step(c, d, i);
      j := PhrasesCover(c, d, i, ps);
    }
  }

  lemma LiteralMeans(dict: seq<byte>, d: seq<byte>, i: nat)
    requires i < |d|
    ensures CanEncode(d[i]) ==> Means(dict, d, i, Literal(d[i]))
  {
  }

  lemma PhrasesCover(c: Coder, d: seq<byte>, i: nat, ps: seq<Phrase>) returns (j: nat)
    requires c.Valid() && i < |d|
    requires (|ps| == 1 && Means(c.dict, d, i, ps[0])) ||
             (i + 1 < |d| && CanEncode(d[i]) && CanEncode(d[i + 1]) && ps == [Literal(d[i]), Literal(d[i + 1])])
    ensures i < j <= |d| && Covers(c.dict, d, i, j, ps)
  {
    CoversOne(c.dict, d, i, ps[0]);
    j := i + Span(ps[0]);
    if |ps| == 1 {
      assert ps == [ps[0]];
    } else {
      CoversOne(c.dict, d, i + 1, ps[1]);
      CoversConcat(c.dict, d, i, i + 1, i + 2, [ps[0]], [ps[1]]);
      assert ps == [ps[0]] + [ps[1]];
      j := i + 2;
    }
  }

  lemma RunCovers(c: Coder, d: seq<byte>, i: nat, count: nat) returns (j: nat)
    requires c.Valid() && i < |d| && count == RunFrom(d, i, 0) && count >= MIN_REPEATING_BYTES
    ensures i < j <= |d| && Covers(c.dict, d, i, j, Step(c, d, i))
  {
    hide Means, RunFrom, Covers;
    var lead := RunLead(c, d, i);
    LeadMeans(c, d, i);
    var k := i + |lead|;
    RunMeans(c, d, k, count - |lead|);
    var p := ToPhrase(RunRef(|c.dict|, k, count - |lead|), k);
    CoversOne(c.dict, d, k, p);
    CoversConcat(c.dict, d, i, k, k + Span(p), lead, [p]);
    j := k + Span(p);
  }

  /** The phrases for the data from `i` on. */
  ghost function Emit(c: Coder, d: seq<byte>, i: nat): (ps: seq<Phrase>)
    requires c.Valid() && i <= |d|
    decreases |d| - i
  {
    if i == |d| then []
    else
      StepCovers(c, d, i);
      var ps := Step(c, d, i);
      ps + Emit(c, d, i + TotalSpan(ps))
  }

  lemma CoversNone(dict: seq<byte>, d: seq<byte>, i: nat)
    ensures Covers(dict, d, i, i, [])
  {
  }

  /** The emitted phrases stand for the data. */
  lemma {:induction false} EmitCovers(c: Coder, d: seq<byte>, i: nat)
    requires c.Valid() && i <= |d|
    ensures Covers(c.dict, d, i, |d|, Emit(c, d, i))
    decreases |d| - i
  {
    hide Step, Covers;
    if i == |d| {
      CoversNone(c.dict, d, i);
    } else {
      StepCovers(c, d, i);
      var ps := Step(c, d, i);
      EmitCovers(c, d, i + TotalSpan(ps));
      CoversConcat(c.dict, d, i, i + TotalSpan(ps), |d|, ps, Emit(c, d, i + TotalSpan(ps)));
    }
  }

  // ----- Round trip -----

  lemma ApplyMeans(dict: seq<byte>, d: seq<byte>, i: nat, p: Phrase)
    requires Means(dict, d, i, p)
    ensures Apply(dict, d[..i], p) == Some(d[..i + Span(p)])
  {
    match p
    case Literal(b) =>
      assert d[..i] + [b] == d[..i + 1];
    case Ref(kind, dist, len) =>
      if dist <= i {
        CopyRepeats(d, i, dist, len);
      } else {
        assert d[..i] + d[i..i + len] == d[..i + len];
      }
  }

  /** Replaying phrases that stand for data gives the data, copies that overlap themselves
      and copies from the dictionary included. */
  lemma {:induction false} ReplayCovers(dict: seq<byte>, d: seq<byte>, i: nat, j: nat, ps: seq<Phrase>)
    requires i <= |d| && Covers(dict, d, i, j, ps)
    ensures AllWellFormed(ps) && j <= |d| && Replay(dict, d[..i], ps) == Some(d[..j])
    decreases |ps|
  {
    CoversForm(dict, d, i, j, ps);
    if ps != [] {
      ApplyMeans(dict, d, i, ps[0]);
      ReplayCovers(dict, d, i + Span(ps[0]), j, ps[1..]);
    }
  }

  /** Within the reach of the 21-bit addresses every phrase has a faithful encoding. */
  ghost predicate InReach(dict: seq<byte>, d: seq<byte>)
  {
    |dict| + |d| <= 0x20_0001
  }

  lemma {:induction false} CoversFit(dict: seq<byte>, d: seq<byte>, i: nat, j: nat, ps: seq<Phrase>)
    requires InReach(dict, d) && Covers(dict, d, i, j, ps)
    ensures AllFit(ps)
    decreases |ps|
  {
    if ps != [] {
      CoversFit(dict, d, i + Span(ps[0]), j, ps[1..]);
      assert Fits(ps[0]);
    }
  }

  /** Decoding the emitted bits, followed by the padding of the last byte, gives the data. */
  lemma RoundTrip(c: Coder, d: seq<byte>, i: nat, pad: seq<bool>)
    requires c.Valid() && i <= |d| && InReach(c.dict, d) && |pad| < 8
    ensures var ps := Emit(c, d, i);
            AllWellFormed(ps) && Decode(PrintAll(ps) + pad, c.dict, d[..i]) == Some(d)
  {
    var ps := Emit(c, d, i);
    EmitCovers(c, d, i);
    CoversFit(c.dict, d, i, |d|, ps);
    ReplayCovers(c.dict, d, i, |d|, ps);
    ParsePrinted(ps, pad);
    DecodeIsReplay(PrintAll(ps) + pad, c.dict, d[..i]);
    assert d[..|d|] == d;
  }

  // ----- The loop -----

  lemma EmitStep(c: Coder, d: seq<byte>, i: nat, ps: seq<Phrase>, all: seq<Phrase>)
    requires c.Valid() && i < |d| && ps + Emit(c, d, i) == all
    ensures i + TotalSpan(Step(c, d, i)) <= |d| && 0 < TotalSpan(Step(c, d, i))
    ensures (ps + Step(c, d, i)) + Emit(c, d, i + TotalSpan(Step(c, d, i))) == all
  {
    hide Step, Emit, Covers, TotalSpan;
    EmitUnfold(c, d, i);
    var s := Step(c, d, i);
    var rest := Emit(c, d, i + TotalSpan(s));
    assert (ps + s) + rest == ps + (s + rest);
  }

  lemma EmitUnfold(c: Coder, d: seq<byte>, i: nat)
    requires c.Valid() && i < |d|
    ensures var s := Step(c, d, i);
            0 < TotalSpan(s) && i + TotalSpan(s) <= |d| && Emit(c, d, i) == s + Emit(c, d, i + TotalSpan(s))
  {
    hide Step, Covers, TotalSpan;
    StepCovers(c, d, i);
  }

  lemma SpanOne(p: Phrase)
    ensures TotalSpan([p]) == Span(p)
  {
    assert [p][1..] == [];
  }

  lemma SpanTwo(p: Phrase, q: Phrase)
    ensures TotalSpan([p, q]) == Span(p) + Span(q)
  {
    assert [p, q][1..] == [q];
    SpanOne(q);
  }

  /** Counts the run of equal bytes at `i`, up to the longest length of a reference. */
  method CountRun(d: seq<byte>, i: nat) returns (count: nat)
    requires i < |d|
    ensures count == RunFrom(d, i, 0)
  {
    count := 0;
    while i + count < |d| && count < 256 && d[i] == d[i + count]
      invariant i + count <= |d| && count <= 256 && forall k :: i <= k < i + count ==> d[k] == d[i]
      invariant RunFrom(d, i, count) == RunFrom(d, i, 0)
    {
      count := count + 1;
    }
  }

  /** Writes a run of at least `MIN_REPEATING_BYTES` equal bytes. */
  method WriteRun(c: Coder, d: seq<byte>, i: nat, count: nat) returns (ps: seq<Phrase>, next: nat)
    requires c.Valid() && i < |d| && count == RunFrom(d, i, 0) && count >= MIN_REPEATING_BYTES
    ensures ps == Step(c, d, i) && next == i + TotalSpan(ps)
  {
    var k, n := i, count;
    ps := [];
    if !(i > 0 && d[i - 1] == d[i]) {
      if !CanEncode(d[i]) {
        var b := Backref(Dynamic, c.reserved[d[i]], 1, |c.dict|);
        ps := [ToPhrase(b, i)];
      } else {
        ps := [Literal(d[i])];
      }
      SpanOne(ps[0]);
      k, n := k + 1, n - 1;
    }
    var b := RunRef(|c.dict|, k, n);
    SpanOne(ToPhrase(b, k));
    TotalsConcat(ps, [ToPhrase(b, k)]);
    ps := ps + [ToPhrase(b, k)];
    next := k + n;
  }

  /** One round of the loop away from long runs: the best reference at `i`, unless a byte or
      two further on there is one that is better by more than the literals cost. */
  method WriteNext(c: Coder, cb: CircularBuffer, d: seq<byte>, i: nat, dataIndex: Index, dictIndex: Index)
    returns (ps: seq<Phrase>, next: nat)
    requires c.Valid() && i < |d| && RunFrom(d, i, 0) < MIN_REPEATING_BYTES
    requires dataIndex.Valid() && dataIndex.data == d && dictIndex.Valid() && dictIndex.data == c.dict
    requires cb.Valid(c.dict, d)
    modifies cb
    ensures cb.Valid(c.dict, d)
    ensures ps == Step(c, d, i) && next == i + TotalSpan(ps)
  {
    hide BestRef, RunFrom, Savings;
    BestMeans(c, d, i);
    var bestAtI, bestSavings := BestBackref(cb, d, i, dataIndex, dictIndex);
    SpanOne(Literal(d[i]));
    if !CanEncode(d[i]) {
      SpanOne(ToPhrase(bestAtI, i));
      return [ToPhrase(bestAtI, i)], i + bestAtI.length;
    }
    if bestSavings < 0 {
      return [Literal(d[i])], i + 1;
    }
    if i + 1 < |d| {
      var _, newSavings := BestBackref(cb, d, i + 1, dataIndex, dictIndex);
      if newSavings > bestSavings + 1 {
        return [Literal(d[i])], i + 1;
      }
    }
    if i + 2 < |d| && CanEncode(d[i + 1]) {
      var _, newSavings := BestBackref(cb, d, i + 2, dataIndex, dictIndex);
      if newSavings > bestSavings + 2 {
        SpanTwo(Literal(d[i]), Literal(d[i + 1]));
        return [Literal(d[i]), Literal(d[i + 1])], i + 2;
      }
    }
    SpanOne(ToPhrase(bestAtI, i));
    return [ToPhrase(bestAtI, i)], i + bestAtI.length;
  }

  /** The loop over the data. */
  method WritePhrases(c: Coder, d: seq<byte>, startIndex: nat, dataIndex: Index, dictIndex: Index)
    returns (ps: seq<Phrase>)
    requires c.Valid() && startIndex <= |d|
    requires dataIndex.Valid() && dataIndex.data == d && dictIndex.Valid() && dictIndex.data == c.dict
    ensures ps == Emit(c, d, startIndex)
  {
    hide Step, RunFrom, Index.Valid;
    var cb := new CircularBuffer(c.dict, d);
    ps := [];
    ghost var all := Emit(c, d, startIndex);
    var i := startIndex;
    while i < |d|
      invariant startIndex <= i <= |d| && cb.Valid(c.dict, d) && fresh(cb)
      invariant ps + Emit(c, d, i) == all
      decreases |d| - i
    {
      EmitStep(c, d, i, ps, all);
      var count := CountRun(d, i);
      var qs;
      if count >= MIN_REPEATING_BYTES {
        qs, i := WriteRun(c, d, i, count);
      } else {
        qs, i := WriteNext(c, cb, d, i, dataIndex, dictIndex);
      }
      ps := ps + qs;
    }
  }
}
