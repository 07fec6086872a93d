/** The compressor object: buffers and a bit writer that its methods update in place. */
module Compressors {
  import opened Options
  import opened Bits
  import opened Phrases
  import opened Lookup
  import opened BackRefs
  import opened Greedy
  import opened Decompressor
  import opened Sessions
  import opened Machine

  const MAX_DICT_SIZE := 0x40_0000
  const MAX_ANNOUNCED := 0x4_0000

  class Compressor {
    const coder: Coder
    const dictIndex: Index

    var outBuf: seq<byte>
    var cache: seq<bool>
    var nbSkippedBits: nat
    var inBuf: seq<byte>
    var lastOutLen: int
    var lastNbSkippedBits: nat
    var lastInLen: int
    var noCompression: bool

    /** What has been written since the last reset. */
    ghost var view: View

    ghost function State(): State
      reads this
    {
      Machine.State(outBuf, nbSkippedBits, cache, inBuf, lastOutLen, lastNbSkippedBits, lastInLen, noCompression)
    }

    /** The dictionary is ready for use. */
    ghost predicate Equipped()
    {
      coder.Valid() && dictIndex.Valid() && dictIndex.data == coder.dict
    }

    ghost predicate Valid()
      reads this
    {
      Equipped() && Agrees(coder, State(), view)
    }

    constructor (coder: Coder, dictIndex: Index)
      requires coder.Valid() && dictIndex.Valid() && dictIndex.data == coder.dict
      ensures this.coder == coder && this.dictIndex == dictIndex
      ensures Valid() && State() == NewState() && view == FreshView()
    {
      this.coder, this.dictIndex := coder, dictIndex;
      outBuf, cache, nbSkippedBits, inBuf := [], [], 0, [];
      lastOutLen, lastNbSkippedBits, lastInLen, noCompression := 0, 0, 0, false;
      new;
      Reset();
    }

    /** Hands bits to the bit writer, which passes on whole bytes. */
    method PutBits(bits: seq<bool>)
      requires |cache| < 8
      modifies `outBuf, `cache
      ensures outBuf == old(outBuf) + Whole(old(cache) + bits) && cache == Rest(old(cache) + bits)
    {
      hide Whole, Rest, ByteOf;
      ghost var before := old(cache);
      WholeOfShort(before);
      assert before + bits[..0] == before;
      for i := 0 to |bits|
        invariant outBuf == old(outBuf) + Whole(before + bits[..i]) && cache == Rest(before + bits[..i])
      {
        assert before + bits[..i + 1] == (before + bits[..i]) + [bits[i]];
        PutBit(before + bits[..i], bits[i]);
        cache := cache + [bits[i]];
        if |cache| == 8 {
          outBuf, cache := outBuf + [ByteOf(cache)], [];
        }
      }
      assert bits[..|bits|] == bits;
    }

    /** Fills up the byte that has been started, and tells how many bits that took. */
    method Align() returns (skipped: nat)
      requires |cache| < 8
      modifies `outBuf, `cache
      ensures outBuf == old(outBuf) + Packed(old(cache)) && cache == [] && skipped == Padding(|old(cache)|)
    {
      hide Packed, Padding, ByteOf, Zeros;
      skipped := 0;
      if |cache| > 0 {
        skipped := 8 - |cache|;
        PackedShort(cache);
        PaddingShort(|cache|);
        outBuf, cache := outBuf + [ByteOf(cache + Zeros(skipped))], [];
      } else {
        PackedNone();
      }
    }

    method PutPhrases(ps: seq<Phrase>)
      requires |cache| < 8 && AllWellFormed(ps)
      modifies `outBuf, `cache
      ensures outBuf == old(outBuf) + Whole(old(cache) + PrintAll(ps)) && cache == Rest(old(cache) + PrintAll(ps))
    {
      hide Whole, Rest, Print;
      ghost var before := old(cache);
      WholeOfShort(before);
      assert before + PrintAll(ps[..0]) == before;
      for i := 0 to |ps|
        invariant outBuf == old(outBuf) + Whole(before + PrintAll(ps[..i])) && cache == Rest(before + PrintAll(ps[..i]))
      {
        PrintNext(ps, i);
        WholeOn(before + PrintAll(ps[..i]), Print(ps[i]));
        assert before + PrintAll(ps[..i + 1]) == (before + PrintAll(ps[..i])) + Print(ps[i]);
        PutBits(Print(ps[i]));
      }
      assert ps[..|ps|] == ps;
    }

    /** Takes the last byte back into the bit writer, without its padding. */
    method PullBack()
      requires State().Ready()
      modifies `outBuf, `cache
      ensures var s := old(State());
              && outBuf == s.out[..|s.out| - 1] + Whole(s.cache + Kept(s))
              && cache == Rest(s.cache + Kept(s))
    {
      hide Whole, Rest, Tail, ToBits;
      KeptShifted(State());
      var lastByte := outBuf[|outBuf| - 1];
      outBuf := outBuf[..|outBuf| - 1];
      PutBits(ToBits(ShiftRight(lastByte, nbSkippedBits), 8 - nbSkippedBits));
    }

    method AppendInput(d: seq<byte>) returns (ok: bool)
      modifies `inBuf, `lastInLen
      ensures ok <==> |old(inBuf)| + |d| <= 4194304
      ensures inBuf == (if ok then old(inBuf) + d else old(inBuf))
      ensures lastInLen == if ok then |old(inBuf)| else old(lastInLen)
    {
      if |inBuf| + |d| > MAX_INPUT_SIZE {
        return false;
      }
      lastInLen := |inBuf|;
      inBuf := inBuf + d;
      return true;
    }

    method Write(d: seq<byte>) returns (ok: bool)
      requires Equipped() && State().Ready()
      modifies this
      ensures ok <==> |old(inBuf)| + |d| <= 4194304
      ensures State() == AfterWrite(coder, old(State()), d)
      ensures old(Valid()) && ok ==> Valid() && view == WrittenView(old(view), d)
    {
      hide Whole, Rest, Packed, Padding, Tail, Emit, Agrees, Coder.Valid, Index.Valid;
      ghost var before, agreed := State(), Agrees(coder, State(), view);
      lastOutLen := |outBuf|;
      PullBack();
      lastNbSkippedBits := nbSkippedBits;
      ok := AppendInput(d);
      if !ok {
        return;
      }
      if agreed {
        WriteAgrees(coder, before, view, d);
        view := WrittenView(view, d);
      }
      if noCompression {
        outBuf := outBuf + d;
        return;
      }
      Encode();
      Finished(before.out[..|before.out| - 1], before.cache + Kept(before), Body(coder, inBuf, lastInLen));
    }

    /** Compresses what has been written last, and fills up the last byte. */
    method Encode()
      requires Equipped() && |cache| < 8 && 0 <= lastInLen <= |inBuf| <= MAX_INPUT_SIZE
      modifies `outBuf, `cache, `nbSkippedBits
      ensures var bits := old(cache) + Body(coder, inBuf, lastInLen);
              && outBuf == old(outBuf) + Whole(bits) + Packed(Rest(bits))
              && cache == [] && nbSkippedBits == Padding(|Rest(bits)|)
    {
      hide Whole, Rest, Packed, Padding, Emit, Coder.Valid, Index.Valid;
      var inputIndex := New(inBuf);
      var ps := WritePhrases(coder, inBuf, lastInLen, inputIndex, dictIndex);
      EmitCovers(coder, inBuf, lastInLen);
      CoversForm(coder.dict, inBuf, lastInLen, |inBuf|, ps);
      PutPhrases(ps);
      nbSkippedBits := Align();
    }

    method Reset()
      requires Equipped()
      modifies this
      ensures State() == AfterReset(old(State()))
      ensures old(cache) == [] ==> Valid() && view == FreshView()
    {
      hide Agrees, Coder.Valid, Index.Valid;
      if cache == [] {
        ResetAgrees(coder, State());
      }
      noCompression := false;
      outBuf := Header(noCompression);
      inBuf := [];
      lastOutLen := |outBuf|;
      lastNbSkippedBits := 0;
      nbSkippedBits := 0;
      lastInLen := 0;
      view := FreshView();
    }

    method ConsiderBypassing() returns (bypassed: bool)
      modifies this
      ensures bypassed <==> |old(outBuf)| > |old(inBuf)| + HEADER_SIZE
      ensures State() == AfterConsider(old(State()))
      ensures old(Valid()) ==> Valid() && view == ConsideredView(coder, old(view))
    {
      hide Agrees, Coder.Valid, Index.Valid, ConsideredView;
      if Valid() {
        ConsiderAgrees(coder, State(), view);
        view := ConsideredView(coder, view);
      }
      if |outBuf| > |inBuf| + HEADER_SIZE {
        noCompression := true;
        nbSkippedBits := 0;
        lastOutLen := lastInLen + HEADER_SIZE;
        lastNbSkippedBits := 0;
        outBuf := Header(noCompression);
        outBuf := outBuf + inBuf;
        return true;
      }
      return false;
    }

    /** Compresses everything anew. */
    method Rebuild(input: seq<byte>)
      requires Equipped() && |cache| < 8 && |input| <= MAX_INPUT_SIZE
      modifies this
      ensures inBuf == input
      ensures State() == AfterConsider(AfterWrite(coder, AfterReset(old(State())), input))
    {
      hide AfterWrite, Agrees, Coder.Valid, Index.Valid;
      Reset();
      WriteRemembers(coder, State(), input);
      assert [] + input == input;
      var _ := Write(input);
      var _ := ConsiderBypassing();
    }

    method Revert() returns (ok: bool)
      requires Equipped() && CanRevert(State())
      requires |inBuf| <= MAX_INPUT_SIZE
      modifies this
      ensures ok <==> old(lastInLen) != -1
      ensures ok ==> inBuf == old(inBuf)[..old(lastInLen)]
      ensures State() == AfterRevert(coder, old(State()))
      ensures old(Valid()) ==> Valid() && view == RevertedView(coder, old(view))
    {
      hide Agrees, AfterWrite, Coder.Valid, Index.Valid, RevertedView;
      ghost var after := view;
      if Valid() {
        RevertAgrees(coder, State(), view);
        after := RevertedView(coder, view);
      }
      if lastInLen == -1 {
        view := after;
        return false;
      }
      inBuf := inBuf[..lastInLen];
      lastInLen := -1;
      if noCompression {
        Rebuild(inBuf);
      } else {
        outBuf := outBuf[..lastOutLen];
        nbSkippedBits := lastNbSkippedBits;
      }
      ok := true;
      view := after;
    }

    method Compress(d: seq<byte>) returns (c: seq<byte>, ok: bool)
      requires Equipped() && |cache| < 8
      modifies this
      ensures ok <==> |d| <= 4194304
      ensures State() == AfterWrite(coder, AfterReset(old(State())), d) && c == outBuf
      ensures ok && old(cache) == [] ==> Valid() && view.chunks == [d]
      ensures ok && old(cache) == [] && InReach(coder.dict, d) ==> Decompressed(c, coder.dict) == Some(d)
    {
      ghost var clean := cache == [];
      Reset();
      ok := Write(d);
      c := outBuf;
      if ok && clean {
        OneChunk(d);
        if InReach(coder.dict, d) {
          Decompresses();
        }
      }
    }

    /** The size that Compress would reach, found without writing. */
    method CompressedSize256k(d: seq<byte>) returns (size: Option<nat>)
      requires Equipped()
      ensures noCompression ==> size == Some(|Header(true) + d|)
      ensures !noCompression && |d| > 262144 ==> size == None
      ensures !noCompression && |d| <= 262144 && cache == [] ==>
                size == Some(|AfterWrite(coder, AfterReset(State()), d).out|)
    {
      hide AfterWrite, Emit, Index.Valid;
      if noCompression {
        return Some(HEADER_SIZE + |d|);
      }
      if |d| > MAX_ANNOUNCED {
        return None;
      }
      var index := New(d);
      var ps := WritePhrases(coder, d, 0, index, dictIndex);
      var nbBits := CountBits(ps);
      if cache == [] {
        SizeAnnounced(coder, State(), d);
      }
      return Some(HEADER_SIZE + (nbBits + 7) / 8);
    }

    /** What has been written can be had back from the output. */
    lemma Decompresses()
      requires Valid() && (noCompression || InReach(coder.dict, inBuf))
      ensures Decompressed(outBuf, coder.dict) == Some(inBuf)
      ensures inBuf == Flatten(view.chunks)
    {
      AgreesDecompresses(coder, State(), view, coder.dict);
    }
  }

  // ----- Bits and phrases in the bit writer -----

  lemma WholeOfShort(s: seq<bool>)
    requires |s| < 8
    ensures Whole(s) == [] && Rest(s) == s
  {
    hide *;
    WholeRest([], s);
    PackedNone();
    assert [] + s == s;
  }

  /** Writing in two goes is writing in one. */
  lemma WholeOn(s: seq<bool>, t: seq<bool>)
    ensures Whole(s + t) == Whole(s) + Whole(Rest(s) + t) && Rest(s + t) == Rest(Rest(s) + t)
  {
    hide *;
    WholeAndRest(s);
    var r := Rest(s) + t;
    WholeAndRest(r);
    var a, b := s[..|s| - |Rest(s)|], r[..|r| - |Rest(r)|];
    assert s + t == (a + b) + Rest(r);
    WholeRest(a + b, Rest(r));
    PackedConcat(a, b);
  }

  /** Aligning what is left in the bit writer gives the packed stream. */
  lemma Finished(base: seq<byte>, bits: seq<bool>, body: seq<bool>)
    ensures base + Whole(bits) + Whole(Rest(bits) + body) + Packed(Rest(Rest(bits) + body)) == base + Packed(bits + body)
    ensures Padding(|Rest(Rest(bits) + body)|) == Padding(|bits + body|)
  {
    hide *;
    WholeOn(bits, body);
    var s := bits + body;
    WholeAndRest(s);
    var r := Rest(s);
    PackedConcat(s[..|s| - |r|], r);
    PaddingRest(|s|, |r|);
    PaddingRest(|r|, |r|);
    assert base + Whole(bits) + Whole(Rest(bits) + body) + Packed(r) == base + (Whole(s) + Packed(r));
  }

  lemma PrintNext(ps: seq<Phrase>, i: nat)
    requires i < |ps| && AllWellFormed(ps)
    ensures PrintAll(ps[..i + 1]) == PrintAll(ps[..i]) + Print(ps[i])
  {
    hide Print;
    assert ps[..i + 1] == ps[..i] + [ps[i]];
    PrintConcat(ps[..i], [ps[i]]);
    assert [ps[i]][1..] == [];
    assert PrintAll([ps[i]]) == Print(ps[i]) + [];
  }

  /** The bits in use of the last byte are those left by the shift. */
  lemma KeptShifted(s: State)
    requires s.Ready()
    ensures Kept(s) == ToBits(ShiftRight(s.out[|s.out| - 1], s.skipped), 8 - s.skipped)
  {
    hide ToBits, ShiftRight;
    ShiftedBits(s.out[|s.out| - 1], 8, s.skipped);
  }

  lemma OneChunk(d: seq<byte>)
    ensures WrittenView(FreshView(), d).chunks == [d] && Flatten([d]) == d
  {
    assert [d][..0] == [];
    assert Flatten([]) == [];
  }

  /** The bit counter in place of the bit writer. */
  method CountBits(ps: seq<Phrase>) returns (nbBits: nat)
    ensures nbBits == TotalCost(ps)
  {
    nbBits := 0;
    for i := 0 to |ps|
      invariant nbBits == TotalCost(ps[..i])
    {
      assert ps[..i + 1] == ps[..i] + [ps[i]];
      TotalsConcat(ps[..i], [ps[i]]);
      assert [ps[i]][1..] == [];
      nbBits := nbBits + Cost(ps[i]);
    }
    assert ps[..|ps|] == ps;
  }

  // ----- A new compressor -----

  /** The places kept for the reserved bytes: up to the first place at which both have occurred,
      the last one of each. */
  ghost predicate KeptPlaces(dict: seq<byte>, reserved: map<byte, int>)
    requires Coder(dict, reserved).Valid()
  {
    var f, e := reserved[0xFF], reserved[0xFE];
    var first, last := if f < e then f else e, if f < e then e else f;
    && (forall j :: 0 <= j < last ==> dict[j] != dict[last])
    && (forall j :: first < j < last ==> dict[j] != dict[first])
  }

  /** Finds a place of each reserved byte in the dictionary. */
  method FindReserved(dict: seq<byte>) returns (reserved: map<byte, int>)
    ensures Complete(dict) ==> Coder(dict, reserved).Valid() && KeptPlaces(dict, reserved)
  {
    reserved := map[];
    for i := 0 to |dict|
      invariant forall b :: b in reserved ==> 0 <= reserved[b] < i && dict[reserved[b]] == b && !CanEncode(b)
      invariant forall j :: 0 <= j < i && !CanEncode(dict[j]) ==> dict[j] in reserved && j <= reserved[dict[j]]
      invariant 0xFF !in reserved || 0xFE !in reserved
    {
      var b := dict[i];
      if b == 0xFF {
        reserved := reserved[0xFF := i];
      } else if b == 0xFE {
        reserved := reserved[0xFE := i];
      } else {
        continue;
      }
      if 0xFF in reserved && 0xFE in reserved {
        break;
      }
    }
  }

  method NewCompressor(dict0: seq<byte>) returns (c: Compressor?)
    ensures c == null <==> |Augmented(dict0)| > 4194304
    ensures c != null ==> fresh(c) && c.Valid() && c.coder.dict == Augmented(dict0) && c.State() == NewState()
  {
    hide Index.Valid;
    var dict := AugmentDict(dict0);
    if |dict| > MAX_DICT_SIZE {
      return null;
    }
    AugmentedComplete(dict0);
    var reserved := FindReserved(dict);
    var dictIndex := New(dict);
    c := new Compressor(Coder(dict, reserved), dictIndex);
  }
}
