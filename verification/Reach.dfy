/** How far references reach: 21 address bits recover all data exactly as long as the
    dictionary and the data together have at most 2^21 + 1 bytes. */
module Reach {
  import opened Options
  import opened Bits
  import opened Phrases
  import opened BackRefs
  import opened Greedy
  import opened Decompressor
  import opened Sessions

  // ----- Phrases whose distance is cut off -----

  /** What is left of a phrase in the stream: the low bits of its distance. */
  ghost function CutOff(p: Phrase): (q: Phrase)
    requires WellFormed(p)
    ensures WellFormed(q) && Span(q) == Span(p)
  {
    match p
    case Literal(b) => p
    case Ref(kind, dist, len) => Ref(kind, Low(dist - 1, kind.AddressBits()) + 1, len)
  }

  ghost predicate LengthFits(p: Phrase)
    ensures LengthFits(p) ==> WellFormed(p)
  {
    match p
    case Literal(b) => CanEncode(b)
    case Ref(kind, dist, len) => 1 <= dist && 1 <= len <= 256
  }

  ghost predicate AllLengthsFit(ps: seq<Phrase>)
    ensures AllLengthsFit(ps) ==> AllWellFormed(ps)
  {
    forall i :: 0 <= i < |ps| ==> LengthFits(ps[i])
  }

  ghost function AllCutOff(ps: seq<Phrase>): (qs: seq<Phrase>)
    requires AllWellFormed(ps)
    ensures |qs| == |ps| && AllWellFormed(qs) && forall i :: 0 <= i < |ps| ==> qs[i] == CutOff(ps[i])
  {
    seq(|ps|, i requires 0 <= i < |ps| && AllWellFormed(ps) => CutOff(ps[i]))
  }

  lemma ReadCutOff(p: Phrase, rest: seq<bool>)
    requires LengthFits(p)
    ensures ReadOne(Print(p) + rest) == Got(CutOff(p), Cost(p))
  {
    hide ToBits, Value, Low, Pow2;
    var s := Print(p) + rest;
    match p
    case Literal(b) =>
      ReadPrinted(p, rest);
    case Ref(kind, dist, len) =>
      var n := kind.NbBits();
      assert s[..8] == ToBits(kind.Delimiter(), 8);
      assert s[8..16] == ToBits(len - 1, 8);
      assert s[16..n] == ToBits(dist - 1, kind.AddressBits());
      ByteReadBack(kind.Delimiter());
      ByteReadBack(len - 1);
      ReadBack(dist - 1, kind.AddressBits());
  }

  /** Parsing what was printed gives the phrases with their distances cut off. */
  lemma {:induction false} ParseCutOff(ps: seq<Phrase>, pad: seq<bool>)
    requires AllLengthsFit(ps) && |pad| < 8
    ensures Parse(PrintAll(ps) + pad) == Some(AllCutOff(ps))
  {
    hide *;
    if ps == [] {
      ParseNothing(pad);
    } else {
      CutOffRest(ps);
      var p, rest := ps[0], PrintAll(ps[1..]);
      ReadCutOff(p, rest + pad);
      ParseCutOff(ps[1..], pad);
      ParseNext(Print(p), rest + pad, CutOff(p), AllCutOff(ps[1..]));
      assert Print(p) + rest + pad == Print(p) + (rest + pad);
    }
  }

  lemma CutOffRest(ps: seq<Phrase>)
    requires ps != [] && AllLengthsFit(ps)
    ensures LengthFits(ps[0]) && AllLengthsFit(ps[1..]) && PrintAll(ps) == Print(ps[0]) + PrintAll(ps[1..])
    ensures [CutOff(ps[0])] + AllCutOff(ps[1..]) == AllCutOff(ps)
  {
    hide Print, CutOff, LengthFits;
  }

  lemma {:induction false} CoversLengths(dict: seq<byte>, d: seq<byte>, i: nat, j: nat, ps: seq<Phrase>)
    requires Covers(dict, d, i, j, ps)
    ensures AllLengthsFit(ps)
    decreases |ps|
  {
    if ps != [] {
      CoversLengths(dict, d, i + Span(ps[0]), j, ps[1..]);
      assert LengthFits(ps[0]);
    }
  }

  /** Decompressing replays what is left of the phrases, whatever the padding and the dictionary. */
  lemma ShownReplays(c: Coder, chunks: seq<seq<byte>>, out: seq<byte>, skipped: nat, dict: seq<byte>)
    requires c.Valid() && Shows(Stream(c, chunks), out, skipped)
    ensures AllWellFormed(AllPhrases(c, chunks))
    ensures Decompressed(out, dict) == Replay(Augmented(dict), [], AllCutOff(AllPhrases(c, chunks)))
  {
    hide *;
    var ps := AllPhrases(c, chunks);
    AllCover(c, chunks);
    CoversLengths(c.dict, Flatten(chunks), 0, |Flatten(chunks)|, ps);
    var pad := ShownDecodes(c, chunks, out, skipped, dict);
    ParseCutOff(ps, pad);
    DecodeIsReplay(PrintAll(ps) + pad, Augmented(dict), []);
  }

  lemma {:induction false} CoversLast(dict: seq<byte>, d: seq<byte>, i: nat, j: nat, ps: seq<Phrase>) returns (k: nat)
    requires i < j && Covers(dict, d, i, j, ps)
    ensures ps != [] && Means(dict, d, k, ps[|ps| - 1]) && k + Span(ps[|ps| - 1]) == j
    decreases |ps|
  {
    hide Means;
    if |ps| == 1 {
      k := i;
    } else {
      var mid := i + Span(ps[0]);
      EachCovers(dict, d, mid, j, ps[1..]);
      k := CoversLast(dict, d, mid, j, ps[1..]);
    }
  }

  lemma {:induction false} EachCovers(dict: seq<byte>, d: seq<byte>, i: nat, j: nat, ps: seq<Phrase>)
    requires Covers(dict, d, i, j, ps)
    ensures i + |ps| <= j
    decreases |ps|
  {
    hide Means;
    if ps != [] {
      EachCovers(dict, d, i + Span(ps[0]), j, ps[1..]);
    }
  }

  // ----- Data out of reach -----

  /** A dictionary whose first byte occurs nowhere else, and data that ends with it. */
  ghost function FarDict(m: nat): (dict: seq<byte>)
    requires m >= 2
    ensures |dict| == m && Complete(dict) && Augmented(dict) == dict
    ensures dict[0] == 0xFF && forall p :: 0 < p < m ==> dict[p] != 0xFF
  {
    var dict := seq(m, p => if p == 0 then 0xFF else if p == 1 then 0xFE else 0);
    assert dict[0] == 0xFF && dict[1] == 0xFE;
    dict
  }

  ghost function FarData(n: nat): (d: seq<byte>)
    requires n >= 1
    ensures |d| == n && d[n - 1] == 0xFF && forall p :: 0 <= p < n - 1 ==> d[p] != 0xFF
  {
    seq(n, p => if p == n - 1 then 0xFF else 0)
  }

  /** The only reference for the last byte goes to the first byte of the dictionary. */
  lemma OnlyFarRef(m: nat, n: nat, k: nat, p: Phrase)
    requires m >= 2 && n >= 1 && Means(FarDict(m), FarData(n), k, p) && k + Span(p) == n
    ensures p == Ref(Dynamic, m + n - 1, 1)
  {
    hide FarDict, FarData, IsRef;
    if p.Ref? {
      SourceOfLast(FarDict(m), FarData(n), k, p.kind, p.dist, p.len);
    }
  }

  lemma SourceOfLast(dict: seq<byte>, d: seq<byte>, k: nat, kind: Kind, dist: int, len: int)
    requires IsRef(dict, d, k, kind, dist, len)
    ensures var j := k + len - 1;
            if dist <= k then d[j - dist] == d[j]
            else kind.Dynamic? && len - 1 <= |dict| + j - dist < |dict| && dict[|dict| + j - dist] == d[j]
  {
    var last := d[k..k + len][len - 1];
    if dist <= k {
      assert last == d[k - dist..k - dist + len][len - 1];
    } else {
      var at := |dict| - (dist - k);
      assert last == dict[at..at + len][len - 1];
    }
  }

  /** A reference of length 1 appends the byte that stands `dist` back, the dictionary being in
      front of the output. */
  lemma AppliedByte(dict: seq<byte>, out: seq<byte>, dist: nat, d: seq<byte>)
    requires 1 <= dist && Apply(dict, out, Ref(Dynamic, dist, 1)) == Some(d)
    ensures |d| == |out| + 1 && dist <= |dict| + |out| && d[|out|] == (dict + out)[|dict| + |out| - dist]
  {
    if dist <= |out| {
      assert d == out + [out[|out| - dist]];
    } else {
      var at := |dict| - (dist - |out|);
      assert d == out + dict[at..at + 1];
    }
  }

  /** With its distance cut off, that reference gives another byte. */
  lemma CutOffMisses(m: nat, n: nat, mid: seq<byte>)
    requires m >= 2 && n >= 1 && m + n > 0x20_0001 && mid == FarData(n)[..n - 1]
    ensures var p := CutOff(Ref(Dynamic, m + n - 1, 1));
            Apply(FarDict(m), mid, p) != Some(FarData(n))
  {
    hide Low, FarDict, FarData, Apply;
    Powers();
    var dict, d := FarDict(m), FarData(n);
    var q := Low(m + n - 2, 21) + 1;
    if Apply(dict, mid, Ref(Dynamic, q, 1)) == Some(d) {
      AppliedByte(dict, mid, q, d);
    }
  }

  lemma FarNotReplayed(m: nat, n: nat, ps: seq<Phrase>)
    requires m >= 2 && n >= 1 && m + n > 0x20_0001 && Covers(FarDict(m), FarData(n), 0, n, ps)
    ensures AllLengthsFit(ps) && Replay(FarDict(m), [], AllCutOff(ps)) != Some(FarData(n))
  {
    hide *;
    var dict, d := FarDict(m), FarData(n);
    CoversLengths(dict, d, 0, n, ps);
    var k := CoversLast(dict, d, 0, n, ps);
    OnlyFarRef(m, n, k, ps[|ps| - 1]);
    var qs := AllCutOff(ps);
    SpanOfRef(Dynamic, m + n - 1, 1);
    if Replay(dict, [], qs) == Some(d) {
      LastApplied(dict, d, qs);
      CutOffMisses(m, n, d[..n - 1]);
    }
  }

  lemma SpanOfRef(kind: Kind, dist: nat, len: nat)
    ensures Span(Ref(kind, dist, len)) == len
  {
  }

  /** A replay ends with its last phrase. */
  lemma LastApplied(dict: seq<byte>, d: seq<byte>, qs: seq<Phrase>)
    requires qs != [] && AllWellFormed(qs) && Replay(dict, [], qs) == Some(d)
    requires WellFormed(qs[|qs| - 1]) && Span(qs[|qs| - 1]) == 1
    ensures d != [] && Apply(dict, d[..|d| - 1], qs[|qs| - 1]) == Some(d)
  {
    hide Apply, Replay, Span, WellFormed;
    var q, before := qs[|qs| - 1], qs[..|qs| - 1];
    assert qs == before + [q];
    ReplayConcat(dict, [], before, [q]);
    ReplayOne(dict, Replay(dict, [], before).value, q);
  }

  lemma ReplayOne(dict: seq<byte>, out: seq<byte>, p: Phrase)
    requires WellFormed(p)
    ensures Replay(dict, out, [p]) == Apply(dict, out, p)
  {
    hide Apply;
    assert [p][1..] == [];
  }

  /** Data out of reach are never recovered, however they were written. */
  lemma FarNotRecovered(c: Coder, chunks: seq<seq<byte>>, out: seq<byte>, skipped: nat, m: nat, n: nat)
    requires m >= 2 && n >= 1 && m + n > 0x20_0001
    requires c.Valid() && c.dict == FarDict(m) && Flatten(chunks) == FarData(n)
    requires Shows(Stream(c, chunks), out, skipped)
    ensures Decompressed(out, c.dict) != Some(Flatten(chunks))
  {
    hide *;
    AllCover(c, chunks);
    FarNotReplayed(m, n, AllPhrases(c, chunks));
    ShownReplays(c, chunks, out, skipped, c.dict);
  }

  /** All data of length `n`, written in whatever chunks with whatever dictionary that has the
      reserved bytes and length `m`, can be had back. */
  ghost predicate AlwaysRecovered(m: nat, n: nat)
  {
    forall c: Coder, chunks: seq<seq<byte>>, out: seq<byte>, skipped: nat ::
      c.Valid() && |c.dict| == m && |Flatten(chunks)| == n && Shows(Stream(c, chunks), out, skipped) ==>
      Decompressed(out, c.dict) == Some(Flatten(chunks))
  }

  /** The bound is exact for every length of dictionary and data. */
  lemma ReachExact(m: nat, n: nat)
    requires m >= 2 && n >= 1
    ensures AlwaysRecovered(m, n) <==> m + n <= 0x20_0001
  {
    hide Stream, Decompressed, Shows, FarDict, FarData;
    if m + n <= 0x20_0001 {
      forall c: Coder, chunks: seq<seq<byte>>, out: seq<byte>, skipped: nat |
        c.Valid() && |c.dict| == m && |Flatten(chunks)| == n && Shows(Stream(c, chunks), out, skipped)
        ensures Decompressed(out, c.dict) == Some(Flatten(chunks))
      {
        ShownDecompresses(c, chunks, out, skipped, c.dict);
      }
    } else {
      var c := SomeCoder(FarDict(m));
      var chunks := [FarData(n)];
      assert [FarData(n)][..0] == [] && Flatten([]) == [];
      var out, skipped := Packed(Stream(c, chunks)), Padding(|Stream(c, chunks)|);
      PackedShows(Stream(c, chunks));
      FarNotRecovered(c, chunks, out, skipped, m, n);
    }
  }

  /** The coder of a dictionary that has both reserved bytes. */
  ghost function SomeCoder(dict: seq<byte>): (c: Coder)
    requires Complete(dict)
    ensures c.Valid() && c.dict == dict
  {
    Coder(dict, map[0xFF := IndexIn(dict, 0xFF), 0xFE := IndexIn(dict, 0xFE)])
  }

  ghost function IndexIn(dict: seq<byte>, b: byte): (p: nat)
    requires b in dict
    ensures p < |dict| && dict[p] == b
  {
    var p: nat :| p < |dict| && dict[p] == b;
    p
  }
}
