/** The reach in terms of the dictionary that a caller passes, before the reserved bytes are
    appended: dictionary and data are recovered exactly as long as they have at most 2^21 - 1
    bytes together. */
module CallerReach {
  import opened Options
  import opened Suffixes
  import opened Bits
  import opened Phrases
  import opened Lookup
  import opened BackRefs
  import opened Greedy
  import opened Decompressor
  import opened Sessions
  import opened Reach

  // ----- The witness -----

  /** A dictionary whose only reserved byte is 0xFE, at `p`. Augmenting adds another one, whose
      suffix is larger. */
  ghost function NearDict(m: nat, p: nat): (dict: seq<byte>)
    requires p < m || m == p == 0
    ensures |dict| == m && forall i :: 0 <= i < m ==> dict[i] == if i == p then 0xFE else 0
  {
    seq(m, i => if i == p then 0xFE else 0)
  }

  ghost function NearFull(m: nat, p: nat): (aug: seq<byte>)
    requires p < m || m == p == 0
    ensures aug == Augmented(NearDict(m, p)) && |aug| == m + 2 && Complete(aug) && aug[m + 1] == 0xFF
    ensures forall i :: 0 <= i <= m ==> aug[i] == if i == p || i == m then 0xFE else 0
  {
    var aug := NearDict(m, p) + [0xFE, 0xFF];
    assert aug[m] == 0xFE && aug[m + 1] == 0xFF;
    aug
  }

  /** Data that end with 0xFE, and share nothing else with the dictionary. */
  ghost function NearData(n: nat): (d: seq<byte>)
    requires n >= 1
    ensures |d| == n && forall i :: 0 <= i < n ==> d[i] == if i == n - 1 then 0xFE else 1
  {
    seq(n, i => if i == n - 1 then 0xFE else 1)
  }

  // ----- The last phrase -----

  /** The last phrase is a dynamic reference of length 1 into the dictionary. */
  lemma LastIsOne(m: nat, p: nat, n: nat, k: nat, ph: Phrase)
    requires (p < m || m == p == 0) && n >= 1
    requires Means(NearFull(m, p), NearData(n), k, ph) && k + Span(ph) == n
    ensures k == n - 1 && ph.Ref? && ph.kind == Dynamic && ph.len == 1 && ph.dist > k
  {
    hide NearFull, NearData, IsRef;
    var aug, d := NearFull(m, p), NearData(n);
    if ph.Ref? {
      LastShort(aug, d, k, ph.kind, ph.dist, ph.len);
    }
  }

  /** If the last byte occurs nowhere else in the data, and the one before it not in the
      dictionary, only the dictionary has a reference for the last byte, and only for it. */
  lemma LastShort(dict: seq<byte>, d: seq<byte>, k: nat, kind: Kind, dist: int, len: int)
    requires IsRef(dict, d, k, kind, dist, len) && k + len == |d|
    requires forall i :: 0 <= i < |d| - 1 ==> d[i] != d[|d| - 1] && d[i] !in dict
    ensures k == |d| - 1 && kind == Dynamic && len == 1 && dist > k
  {
    SourceOfLast(dict, d, k, kind, dist, len);
    if len > 1 {
      RefShorter(dict, d, k, kind, dist, len);
      SourceOfLast(dict, d, k, kind, dist, len - 1);
    }
  }

  lemma RefShorter(dict: seq<byte>, d: seq<byte>, k: nat, kind: Kind, dist: int, len: int)
    requires IsRef(dict, d, k, kind, dist, len) && len > 1
    ensures IsRef(dict, d, k, kind, dist, len - 1)
  {
    Shorter(d, k, k + len - 1, k + len);
    if dist <= k {
      Shorter(d, k - dist, k - dist + len - 1, k - dist + len);
    } else {
      var at := |dict| - (dist - k);
      Shorter(dict, at, at + len - 1, at + len);
    }
  }

  lemma Shorter<T>(a: seq<T>, i: nat, j: nat, k: nat)
    requires i <= j <= k <= |a|
    ensures a[i..j] == a[i..k][..j - i]
  {
  }

  /** A round that emits several phrases ends with a literal or with a long reference. */
  lemma StepLast(c: Coder, d: seq<byte>, i: nat)
    requires c.Valid() && i < |d|
    ensures var ps := Step(c, d, i);
            |ps| >= 2 ==> var q := ps[|ps| - 1]; q.Literal? || q.len >= MIN_REPEATING_BYTES - 1
  {
    hide RunFrom, BestRef, Savings;
  }

  lemma SingleCovers(dict: seq<byte>, d: seq<byte>, i: nat, j: nat, ps: seq<Phrase>)
    requires |ps| == 1 && Covers(dict, d, i, j, ps)
    ensures i + Span(ps[0]) == j
  {
  }

  /** At the last byte the best reference is emitted. */
  lemma StepAtEnd(c: Coder, d: seq<byte>)
    requires c.Valid() && d != [] && !CanEncode(d[|d| - 1])
    ensures var i := |d| - 1; var b := BestRef(c.dict, d, i);
            b.length >= 1 && Distance(b, i) >= 1 && Step(c, d, i) == [ToPhrase(b, i)]
  {
    hide BestRef, Savings, Means;
    var i := |d| - 1;
    BestMeans(c, d, i);
    assert RunFrom(d, i, 0) <= 1;
  }

  lemma {:induction false} EmitEnds(c: Coder, m: nat, p: nat, n: nat, i: nat)
    requires c.Valid() && (p < m || m == p == 0) && c.dict == NearFull(m, p) && i < n
    ensures var d := NearData(n); var b := BestRef(c.dict, d, n - 1); var ps := Emit(c, d, i);
            && b.length >= 1 && Distance(b, n - 1) >= 1
            && ps != [] && ps[|ps| - 1] == ToPhrase(b, n - 1)
    decreases n - i
  {
    hide Step, BestRef, NearFull, Covers, ToPhrase;
    var d := NearData(n);
    StepAtEnd(c, d);
    StepCovers(c, d, i);
    var ps := Step(c, d, i);
    var j := i + TotalSpan(ps);
    if j < n {
      EmitEnds(c, m, p, n, j);
    } else {
      var k := CoversLast(c.dict, d, i, n, ps);
      LastIsOne(m, p, n, k, ps[|ps| - 1]);
      StepLast(c, d, i);
      SingleOrLate(c.dict, d, i, n, ps, k);
      assert Emit(c, d, n) == [];
    }
  }

  lemma SingleOrLate(dict: seq<byte>, d: seq<byte>, i: nat, j: nat, ps: seq<Phrase>, k: nat)
    requires Covers(dict, d, i, j, ps) && ps != [] && k + Span(ps[|ps| - 1]) == j
    ensures |ps| >= 2 || k == i
  {
    if |ps| == 1 {
      SingleCovers(dict, d, i, j, ps);
    }
  }

  // ----- Which reference it is -----

  lemma SmallerSuffix(m: nat, p: nat)
    requires p < m
    ensures Less(NearFull(m, p), p, m)
  {
    hide NearFull;
    assert Less(NearFull(m, p), p + 1, m + 1);
  }

  /** The pattern of one byte occurs where the byte stands. */
  lemma OccursOne(d: seq<byte>, b: byte, lo: int, hi: int, q: int)
    ensures Occurs(d, [b], 1, lo, hi, q) <==> lo <= q < hi && 0 <= q < |d| && d[q] == b
  {
    assert [b][..1] == [b];
    if 0 <= q < |d| {
      assert d[q..q + 1] == [d[q]];
    }
  }

  lemma DictMatch(m: nat, p: nat)
    requires p < m || m == p == 0
    ensures LongestMatch(NearFull(m, p), [0xFE], 1, 1, 0, m + 2) == Match(p, 1)
  {
    hide LongestMatch, NearFull, Less, HasPrefix;
    var aug := NearFull(m, p);
    var r := LongestMatch(aug, [0xFE], 1, 1, 0, m + 2);
    OccursOne(aug, 0xFE, 0, m + 2, p);
    OccursOne(aug, 0xFE, 0, m + 2, r.index);
    assert Occurs(aug, [0xFE], 1, 0, m + 2, p);
    assert r.length == 1 && Occurs(aug, [0xFE], 1, 0, m + 2, r.index);
    if r.index != p {
      SmallerSuffix(m, p);
      LessTotal(aug, p, m);
    }
  }

  lemma NoMatchHere(n: nat, lo: int)
    requires n >= 1
    ensures LongestMatch(NearData(n), [0xFE], 1, 1, lo, n - 1) == Match(-1, -1)
  {
    hide LongestMatch, NearData, Less, HasPrefix;
    var d := NearData(n);
    var r := LongestMatch(d, [0xFE], 1, 1, lo, n - 1);
    OccursOne(d, 0xFE, lo, n - 1, r.index);
  }

  lemma FoundAtEnd(m: nat, p: nat, n: nat)
    requires (p < m || m == p == 0) && n >= 1
    ensures FoundRef(NearFull(m, p), NearData(n), n - 1, Dynamic) == Backref(Dynamic, p, 1, m + 2)
    ensures FoundRef(NearFull(m, p), NearData(n), n - 1, Short).length == -1
  {
    hide LongestMatch, NearFull, NearData;
    var d := NearData(n);
    assert d[n - 1..n] == [0xFE];
    NoMatchHere(n, Max(0, n - 1 - Short.MaxAddress()));
    NoMatchHere(n, Max(0, n - 1 - Dynamic.MaxAddress()));
    DictMatch(m, p);
  }

  /** The last phrase refers to `p`, whose suffix is smaller than that of the appended byte. */
  lemma LastPhrase(c: Coder, m: nat, p: nat, n: nat)
    requires c.Valid() && (p < m || m == p == 0) && n >= 1 && c.dict == NearFull(m, p)
    ensures var ps := Emit(c, NearData(n), 0);
            ps != [] && ps[|ps| - 1] == Ref(Dynamic, m + n + 1 - p, 1)
  {
    hide FoundRef, Emit, NearFull, NearData;
    FoundAtEnd(m, p, n);
    EmitEnds(c, m, p, n, 0);
  }

  // ----- It is cut off -----

  /** With its distance cut off, the last reference gives another byte, unless it happens to hit
      the appended one. */
  lemma NearMisses(m: nat, p: nat, n: nat)
    requires (p < m || m == p == 0) && n >= 1 && m + n - p >= 0x20_0000 && Low(m + n - p, 21) != n
    ensures var q := CutOff(Ref(Dynamic, m + n + 1 - p, 1));
            Apply(NearFull(m, p), NearData(n)[..n - 1], q) != Some(NearData(n))
  {
    hide Low, NearFull, NearData, Apply;
    Powers();
    var aug, d := NearFull(m, p), NearData(n);
    var mid, q := d[..n - 1], Low(m + n - p, 21) + 1;
    if Apply(aug, mid, Ref(Dynamic, q, 1)) == Some(d) {
      AppliedByte(aug, mid, q, d);
    }
  }

  lemma {:induction false} LowBefore(v: nat, n: nat)
    requires 0 < Low(v, n)
    ensures 0 < v && Low(v - 1, n) == Low(v, n) - 1
    decreases n
  {
    if v % 2 == 0 {
      LowBefore(v / 2, n - 1);
      assert (v - 1) / 2 == v / 2 - 1;
    }
  }

  lemma {:induction false} LowOfPower(n: nat)
    ensures Low(Pow2(n), n) == 0
  {
    if n > 0 {
      LowOfPower(n - 1);
    }
  }

  /** For all lengths from 2^21 on there is a place at which the witness misses. */
  lemma NearPlace(m: nat, n: nat) returns (p: nat)
    requires n >= 1 && m + n >= 0x20_0000
    ensures (p < m || m == p == 0) && m + n - p >= 0x20_0000 && Low(m + n - p, 21) != n
  {
    hide Low;
    Powers();
    LowOfPower(21);
    if Low(m + n, 21) != n {
      p := 0;
    } else {
      p := 1;
      assert m + n != Pow2(21);
      LowBefore(m + n, 21);
    }
  }

  lemma NearNotRecovered(c: Coder, m: nat, p: nat, n: nat, out: seq<byte>, skipped: nat)
    requires (p < m || m == p == 0) && n >= 1 && m + n - p >= 0x20_0000 && Low(m + n - p, 21) != n
    requires c.Valid() && c.dict == NearFull(m, p) && Shows(Stream(c, [NearData(n)]), out, skipped)
    ensures Decompressed(out, NearDict(m, p)) != Some(NearData(n))
  {
    hide *;
    var dict, d := NearDict(m, p), NearData(n);
    assert c.dict == Augmented(dict);
    FirstChunk(c, d);
    var ps := Emit(c, d, 0);
    LastPhrase(c, m, p, n);
    ShownReplays(c, [d], out, skipped, dict);
    var qs := AllCutOff(ps);
    SpanOfRef(Dynamic, m + n + 1 - p, 1);
    if Replay(c.dict, [], qs) == Some(d) {
      LastApplied(c.dict, d, qs);
      NearMisses(m, p, n);
    }
  }

  lemma FirstChunk(c: Coder, d: seq<byte>)
    requires c.Valid()
    ensures AllPhrases(c, [d]) == Emit(c, d, 0) && Flatten([d]) == d
  {
    hide Emit;
    OneMore(c, [], d);
    assert [] + [d] == [d] && Flatten([]) == [] && [] + d == d;
    assert AllPhrases(c, []) == [];
  }

  // ----- The bound -----

  /** All data of length `n`, written in whatever chunks with whatever dictionary of length `m`,
      can be had back. */
  ghost predicate AlwaysRecoveredFrom(m: nat, n: nat)
  {
    forall c: Coder, dict: seq<byte>, chunks: seq<seq<byte>>, out: seq<byte>, skipped: nat ::
      c.Valid() && c.dict == Augmented(dict) && |dict| == m && |Flatten(chunks)| == n
      && Shows(Stream(c, chunks), out, skipped) ==>
      Decompressed(out, dict) == Some(Flatten(chunks))
  }

  /** The bound is exact for every length of dictionary and data. */
  lemma CallerReachExact(m: nat, n: nat)
    requires n >= 1
    ensures AlwaysRecoveredFrom(m, n) <==> m + n <= 0x1F_FFFF
  {
    hide Stream, Decompressed, Shows, NearDict, NearFull, NearData, Packed;
    if m + n <= 0x1F_FFFF {
      forall c: Coder, dict: seq<byte>, chunks: seq<seq<byte>>, out: seq<byte>, skipped: nat |
        c.Valid() && c.dict == Augmented(dict) && |dict| == m && |Flatten(chunks)| == n
        && Shows(Stream(c, chunks), out, skipped)
        ensures Decompressed(out, dict) == Some(Flatten(chunks))
      {
        ShownDecompresses(c, chunks, out, skipped, dict);
      }
    } else {
      var p := NearPlace(m, n);
      var c := SomeCoder(NearFull(m, p));
      FirstChunk(c, NearData(n));
      var out, skipped := Packed(Stream(c, [NearData(n)])), Padding(|Stream(c, [NearData(n)])|);
      PackedShows(Stream(c, [NearData(n)]));
      NearNotRecovered(c, m, p, n, out, skipped);
    }
  }
}
