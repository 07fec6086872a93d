/** What a compressor has been given and what it must show for it, over whole runs. */
module Sessions {
  import opened Options
  import opened Bits
  import opened Phrases
  import opened BackRefs
  import opened Greedy
  import opened Sizes
  import opened Decompressor

  const MAX_INPUT_SIZE := 0x40_0000

  // ----- Chunks -----

  /** The chunks written, one after the other. */
  ghost function Flatten(chunks: seq<seq<byte>>): seq<byte>
  {
    if chunks == [] then [] else Flatten(chunks[..|chunks| - 1]) + chunks[|chunks| - 1]
  }

  /** The phrases of all chunks. A chunk may refer to what was written before it. */
  ghost function AllPhrases(c: Coder, chunks: seq<seq<byte>>): seq<Phrase>
    requires c.Valid()
  {
    if chunks == [] then []
    else
      var before := chunks[..|chunks| - 1];
      AllPhrases(c, before) + Emit(c, Flatten(chunks), |Flatten(before)|)
  }

  lemma {:induction false} CoversExtend(dict: seq<byte>, d: seq<byte>, e: seq<byte>, i: nat, j: nat, ps: seq<Phrase>)
    requires d <= e && Covers(dict, d, i, j, ps)
    ensures Covers(dict, e, i, j, ps)
    decreases |ps|
  {
    if ps != [] {
      MeansExtend(dict, d, e, i, ps[0]);
      CoversExtend(dict, d, e, i + Span(ps[0]), j, ps[1..]);
    }
  }

  lemma MeansExtend(dict: seq<byte>, d: seq<byte>, e: seq<byte>, i: nat, p: Phrase)
    requires d <= e && Means(dict, d, i, p)
    ensures Means(dict, e, i, p)
  {
    match p
    case Literal(_) =>
    case Ref(kind, dist, len) =>
      assert e[i..i + len] == d[i..i + len];
      if dist <= i {
        assert e[i - dist..i - dist + len] == d[i - dist..i - dist + len];
      }
  }

  /** All phrases together stand for all that was written. */
  lemma {:induction false} AllCover(c: Coder, chunks: seq<seq<byte>>)
    requires c.Valid()
    ensures Covers(c.dict, Flatten(chunks), 0, |Flatten(chunks)|, AllPhrases(c, chunks))
  {
    hide Emit, Covers;
    if chunks == [] {
      CoversNone(c.dict, [], 0);
    } else {
      var before, d := chunks[..|chunks| - 1], Flatten(chunks);
      AllCover(c, before);
      var n := |Flatten(before)|;
      EmitCovers(c, d, n);
      CoversExtend(c.dict, Flatten(before), d, 0, n, AllPhrases(c, before));
      CoversConcat(c.dict, d, 0, n, |d|, AllPhrases(c, before), Emit(c, d, n));
    }
  }

  lemma AllFormed(c: Coder, chunks: seq<seq<byte>>)
    requires c.Valid()
    ensures AllWellFormed(AllPhrases(c, chunks))
  {
    AllCover(c, chunks);
    CoversForm(c.dict, Flatten(chunks), 0, |Flatten(chunks)|, AllPhrases(c, chunks));
  }

  // ----- The stream -----

  /** The bits of the compressed stream: header and phrases. */
  ghost function Stream(c: Coder, chunks: seq<seq<byte>>): seq<bool>
    requires c.Valid()
  {
    AllFormed(c, chunks);
    Unpacked(Header(false)) + PrintAll(AllPhrases(c, chunks))
  }

  /** `out` shows the stream: exactly its bits, followed by fewer than eight others. */
  ghost predicate Shows(s: seq<bool>, out: seq<byte>, skipped: nat)
  {
    skipped < 8 && 8 * |out| == |s| + skipped && Unpacked(out)[..|s|] == s
  }

  lemma PackedShows(s: seq<bool>)
    ensures Shows(s, Packed(s), Padding(|s|))
  {
    UnpackPacked(s);
    assert (s + Zeros(Padding(|s|)))[..|s|] == s;
  }

  lemma StreamStep(c: Coder, chunks: seq<seq<byte>>, d: seq<byte>)
    requires c.Valid()
    ensures Flatten(chunks + [d]) == Flatten(chunks) + d
    ensures var ps := Emit(c, Flatten(chunks) + d, |Flatten(chunks)|);
            AllWellFormed(ps) && Stream(c, chunks + [d]) == Stream(c, chunks) + PrintAll(ps)
  {
    hide Emit, Covers, PrintAll, AllPhrases, Flatten, Unpacked, AllWellFormed;
    OneMore(c, chunks, d);
    var e := Flatten(chunks) + d;
    var ps := Emit(c, e, |Flatten(chunks)|);
    EmitCovers(c, e, |Flatten(chunks)|);
    CoversForm(c.dict, e, |Flatten(chunks)|, |e|, ps);
    AllFormed(c, chunks);
    PrintConcat(AllPhrases(c, chunks), ps);
  }

  lemma OneMore(c: Coder, chunks: seq<seq<byte>>, d: seq<byte>)
    requires c.Valid()
    ensures Flatten(chunks + [d]) == Flatten(chunks) + d
    ensures AllPhrases(c, chunks + [d]) ==
            AllPhrases(c, chunks) + Emit(c, Flatten(chunks) + d, |Flatten(chunks)|)
  {
    hide Emit;
    var all := chunks + [d];
    assert all[..|all| - 1] == chunks;
  }

  lemma StreamNothing(c: Coder)
    requires c.Valid()
    ensures Stream(c, []) == Unpacked(Header(false))
  {
    assert PrintAll([]) == [];
  }

  /** Whatever the padding, a shown stream decompresses to what was written. */
  lemma ShownDecompresses(c: Coder, chunks: seq<seq<byte>>, out: seq<byte>, skipped: nat, dict: seq<byte>)
    requires c.Valid() && c.dict == Augmented(dict) && InReach(c.dict, Flatten(chunks))
    requires Shows(Stream(c, chunks), out, skipped)
    ensures Decompressed(out, dict) == Some(Flatten(chunks))
  {
    hide ToBits, ReadOne, Emit, Covers;
    var d, ps := Flatten(chunks), AllPhrases(c, chunks);
    AllCover(c, chunks);
    CoversForm(c.dict, d, 0, |d|, ps);
    CoversFit(c.dict, d, 0, |d|, ps);
    ReplayCovers(c.dict, d, 0, |d|, ps);
    var pad := ShownDecodes(c, chunks, out, skipped, dict);
    ParsePrinted(ps, pad);
    DecodeIsReplay(PrintAll(ps) + pad, c.dict, []);
    assert d[..0] == [] && d[..|d|] == d;
  }

  /** Decompressing a shown stream is decoding its phrases. */
  lemma ShownDecodes(c: Coder, chunks: seq<seq<byte>>, out: seq<byte>, skipped: nat,
                     dict: seq<byte>) returns (pad: seq<bool>)
    requires c.Valid() && Shows(Stream(c, chunks), out, skipped)
    ensures |pad| < 8 && AllWellFormed(AllPhrases(c, chunks))
    ensures Decompressed(out, dict) == Decode(PrintAll(AllPhrases(c, chunks)) + pad, Augmented(dict), [])
  {
    hide Stream, Shows, AllPhrases, Unpacked, Decode;
    pad := ShownBody(c, chunks, out, skipped);
    assert out[0] == out[..3][0] && out[1] == out[..3][1] && out[2] == out[..3][2];
  }

  /** A shown stream starts with the header, and its phrases follow. */
  lemma ShownBody(c: Coder, chunks: seq<seq<byte>>, out: seq<byte>, skipped: nat) returns (pad: seq<bool>)
    requires c.Valid() && Shows(Stream(c, chunks), out, skipped)
    ensures |out| >= 3 && out[..3] == Header(false) && |pad| < 8 && AllWellFormed(AllPhrases(c, chunks))
    ensures Unpacked(out[3..]) == PrintAll(AllPhrases(c, chunks)) + pad
  {
    hide Unpacked, PrintAll, AllPhrases, AllWellFormed;
    AllFormed(c, chunks);
    pad := ShownBehind(Header(false), PrintAll(AllPhrases(c, chunks)), out, skipped);
  }

  lemma ShownBehind(h: seq<byte>, body: seq<bool>, out: seq<byte>, skipped: nat) returns (pad: seq<bool>)
    requires Shows(Unpacked(h) + body, out, skipped)
    ensures |out| >= |h| && out[..|h|] == h && |pad| < 8 && Unpacked(out[|h|..]) == body + pad
  {
    hide Unpacked;
    var s, n, bits := Unpacked(h) + body, |h|, Unpacked(out);
    assert bits == s + bits[|s|..];
    pad := bits[|s|..];
    UnpackedConcat(out[..n], out[n..]);
    assert out == out[..n] + out[n..];
    SplitSame(Unpacked(out[..n]), Unpacked(out[n..]), Unpacked(h), body + pad);
    UnpackedInjective(out[..n], h);
  }

  lemma SplitSame<T>(a: seq<T>, b: seq<T>, c: seq<T>, d: seq<T>)
    requires |a| == |c| && a + b == c + d
    ensures a == c && b == d
  {
    assert a == (a + b)[..|a|] && b == (a + b)[|a|..] && c == (c + d)[..|a|] && d == (c + d)[|a|..];
  }

  // ----- Sizes -----

  lemma {:induction false} AllCost(c: Coder, chunks: seq<seq<byte>>)
    requires c.Valid()
    ensures TotalCost(AllPhrases(c, chunks)) <= 8 * |Flatten(chunks)| + 29 * Reserved(Flatten(chunks), 0, |Flatten(chunks)|)
  {
    hide Emit, Reserved;
    if chunks == [] {
    } else {
      var before, d := chunks[..|chunks| - 1], Flatten(chunks);
      var n := |Flatten(before)|;
      AllCost(c, before);
      EmitCost(c, d, n);
      ReservedSplit(d, 0, n, |d|);
      ReservedPrefix(Flatten(before), d, 0, n);
      TotalsConcat(AllPhrases(c, before), Emit(c, d, n));
    }
  }

  /** The worst case: with `n` bytes written, `r` of them reserved, the stream takes at most
      `3 + n + ceil(29 r / 8)` bytes, so without reserved bytes it is never longer than a
      bypassed one. */
  lemma WorstCase(c: Coder, chunks: seq<seq<byte>>, out: seq<byte>, skipped: nat)
    requires c.Valid() && Shows(Stream(c, chunks), out, skipped)
    ensures var n, r := |Flatten(chunks)|, Reserved(Flatten(chunks), 0, |Flatten(chunks)|);
            |out| <= 3 + n + (29 * r + 7) / 8
  {
    AllCost(c, chunks);
    AllFormed(c, chunks);
    PrintSize(AllPhrases(c, chunks));
  }
}
