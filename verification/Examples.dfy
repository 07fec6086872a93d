/** Outputs of small inputs, byte for byte. */
module Examples {
  import opened Options
  import opened Bits
  import opened Phrases
  import opened BackRefs
  import opened Greedy
  import opened Choices
  import opened Decompressor
  import opened Sessions
  import opened Machine
  import opened Recovery

  // ----- The output of a new compressor -----

  ghost function Compressed(c: Coder, d: seq<byte>): seq<byte>
    requires c.Valid()
  {
    AfterWrite(c, NewState(), d).out
  }

  /** The output is the header and the packed phrases. */
  lemma CompressedForm(c: Coder, d: seq<byte>)
    requires c.Valid() && |d| <= MAX_INPUT_SIZE
    ensures AllWellFormed(Emit(c, d, 0)) && Compressed(c, d) == [0, 1, 0] + Packed(PrintAll(Emit(c, d, 0)))
  {
    hide AfterWrite, Packed, Emit, PrintAll, Covers, AllWellFormed;
    var blank := State([], 0, [], [], 0, 0, 0, false);
    var pad := ZerosShift(c, blank, d, []);
    BodyPrints(c, d);
    assert Zeros(0) + Body(c, d, 0) == Body(c, d, 0);
  }

  /** Bytes in front of a stream are packed as they are. */
  lemma PackedBehind(a: seq<byte>, s: seq<bool>)
    ensures Packed(Unpacked(a) + s) == a + Packed(s)
  {
    hide Packed, Unpacked;
    PackedConcat(Unpacked(a), s);
    UnpackPacked(Unpacked(a));
    PaddingRest(|Unpacked(a)|, 0);
    assert Unpacked(a) + Zeros(0) == Unpacked(a);
    UnpackedInjective(Packed(Unpacked(a)), a);
  }

  /** A short reference that starts a byte is followed by two bits of padding. */
  lemma PackedShortRef(dist: nat, len: nat, bytes: seq<byte>)
    requires Fits(Ref(Short, dist, len)) && |bytes| == 4
    requires bytes[0] == 0xFE && bytes[1] == len - 1 && 4 * (dist - 1) == 256 * (bytes[2] as int) + bytes[3] as int
    ensures Packed(Print(Ref(Short, dist, len))) == bytes
  {
    hide Packed, Unpacked, ToBits, Zeros, Pow2;
    var s := Print(Ref(Short, dist, len));
    UnpackPacked(s);
    Powers();
    assert Padding(30) == 2;
    AddressBytes(dist - 1, bytes[2], bytes[3]);
    FourUnpacked(bytes);
    assert s + Zeros(2) == ToBits(0xFE, 8) + ToBits(len - 1, 8) + (ToBits(dist - 1, 14) + Zeros(2));
    UnpackedInjective(Packed(s), bytes);
  }

  lemma AddressBytes(v: nat, a: byte, b: byte)
    requires 256 * a + b == 4 * v
    ensures ToBits(v, 14) + Zeros(2) == ToBits(a, 8) + ToBits(b, 8)
  {
    hide ToBits, Pow2;
    Powers();
    assert Pow2(2) == 4 by { Doubling(1, 2); Doubling(1, 1); OneIsPower(); }
    TopZeros(0, 2, 0);
    NoneWritten(0);
    OneIsPower();
    JoinBits(v, 14, 0, 2);
    JoinBits(a, 8, b, 8);
  }

  lemma OneIsPower()
    ensures Pow2(0) == 1
  {
  }

  lemma FourUnpacked(a: seq<byte>)
    requires |a| == 4
    ensures Unpacked(a) == ToBits(a[0], 8) + ToBits(a[1], 8) + (ToBits(a[2], 8) + ToBits(a[3], 8))
  {
    hide Unpacked, ToBits;
    LastBits(a);
    LastBits(a[..3]);
    LastBits(a[..2]);
    LastBits(a[..1]);
    assert a[..3][..2] == a[..2] && a[..2][..1] == a[..1] && a[..1][..0] == [];
    PackedNone();
  }

  // ----- Eight bytes, twice -----

  const EIGHT: seq<byte> := [97, 98, 99, 100, 101, 102, 103, 104]

  ghost function Twice(): (d: seq<byte>)
    ensures |d| == 16 && forall k :: 0 <= k < 16 ==> d[k] == if k < 8 then 97 + k else 89 + k
  {
    EIGHT + EIGHT
  }

  /** A reference starts with a byte that stands elsewhere. */
  lemma FirstOfRef(dict: seq<byte>, d: seq<byte>, i: nat, kind: Kind, dist: int, len: int)
    requires IsRef(dict, d, i, kind, dist, len)
    ensures 1 <= len <= |d| - i && (if dist <= i then 1 <= dist && d[i - dist] == d[i] else kind == Dynamic && d[i] in dict)
  {
    assert d[i..i + len][0] == d[i];
    if dist <= i {
      assert d[i - dist..i - dist + len][0] == d[i - dist];
    } else {
      var p := |dict| - (dist - i);
      assert dict[p..p + len][0] == dict[p];
    }
  }

  /** No reference saves more than the rest of the data allows. */
  lemma GainLimit(dict: seq<byte>, d: seq<byte>, i: nat, s: int)
    requires s > 8 * (|d| - i) - 30
    ensures !HasGain(dict, d, i, s)
  {
    hide IsRef;
    if kind: Kind, dist: int, len: int :| IsRef(dict, d, i, kind, dist, len) && Gain(kind, len) >= s {
      FirstOfRef(dict, d, i, kind, dist, len);
    }
  }

  lemma NoRefYet(i: nat, dict: seq<byte>)
    requires i < 8 && dict == [0xFE, 0xFF]
    ensures !HasGain(dict, Twice(), i, 0)
  {
    hide IsRef, Twice;
    if kind: Kind, dist: int, len: int :| IsRef(dict, Twice(), i, kind, dist, len) && Gain(kind, len) >= 0 {
      FirstOfRef(dict, Twice(), i, kind, dist, len);
    }
  }

  lemma LiteralYet(c: Coder, i: nat)
    requires c.Valid() && c.dict == [0xFE, 0xFF] && i < 8
    ensures Step(c, Twice(), i) == [Literal(Twice()[i])]
  {
    hide Step, HasGain, Twice;
    NoRefYet(i, c.dict);
    var s := StepPicks(c, Twice(), i);
    if s >= 0 {
      GainDown(c.dict, Twice(), i, s, 0);
    }
  }

  lemma SecondTime(c: Coder)
    requires c.Valid() && c.dict == [0xFE, 0xFF]
    ensures Step(c, Twice(), 8) == [Ref(Short, 8, 8)]
  {
    hide Step, HasGain, Twice, IsRef;
    var d := Twice();
    SecondMost(c.dict);
    var s := StepPicks(c, d, 8);
    MostUnique(c.dict, d, 8, s, 34);
    GainLimit(c.dict, d, 9, 36);
    GainLimit(c.dict, d, 10, 37);
    var p := Step(c, d, 8)[0];
    FirstOfRef(c.dict, d, 8, p.kind, p.dist, p.len);
  }

  lemma SecondMost(dict: seq<byte>)
    ensures Most(dict, Twice(), 8, 34)
  {
    var d := Twice();
    assert d[0..8] == d[8..16];
    assert IsRef(dict, d, 8, Short, 8, 8) && Gain(Short, 8) == 34;
    GainLimit(dict, d, 8, 35);
  }

  ghost function Literals(a: seq<byte>): (ps: seq<Phrase>)
    ensures |ps| == |a| && AllWellFormed(ps)
  {
    seq(|a|, i requires 0 <= i < |a| => Literal(a[i]))
  }

  lemma {:induction false} TwicePhrases(c: Coder, i: nat)
    requires c.Valid() && c.dict == [0xFE, 0xFF] && i <= 8
    ensures Emit(c, Twice(), i) == Literals(Twice()[i..8]) + [Ref(Short, 8, 8)]
    decreases 8 - i
  {
    hide Step, Emit, Twice;
    var d := Twice();
    EmitUnfold(c, d, i);
    if i == 8 {
      SecondTime(c);
      SpanOne(Ref(Short, 8, 8));
      EmitEnd(c, d);
    } else {
      LiteralYet(c, i);
      SpanOne(Literal(d[i]));
      TwicePhrases(c, i + 1);
      assert d[i..8] == [d[i]] + d[i + 1..8];
    }
  }

  lemma EmitEnd(c: Coder, d: seq<byte>)
    requires c.Valid()
    ensures Emit(c, d, |d|) == []
  {
  }

  lemma {:induction false} PrintLiterals(a: seq<byte>)
    ensures PrintAll(Literals(a)) == Unpacked(a)
  {
    hide ToBits;
    if a != [] {
      PrintLiterals(a[1..]);
      assert Literals(a)[1..] == Literals(a[1..]);
    }
  }

  /** Eight bytes and the same again: eight literals and a short reference. */
  lemma TwiceCompressed(c: Coder)
    requires c.Valid() && c.dict == [0xFE, 0xFF]
    ensures Compressed(c, EIGHT + EIGHT) == [0, 1, 0, 97, 98, 99, 100, 101, 102, 103, 104, 0xFE, 0x07, 0x00, 0x1C]
  {
    hide *;
    TwiceIs();
    TwicePhrases(c, 0);
    LiteralsThenRef(c, EIGHT + EIGHT, EIGHT, Ref(Short, 8, 8));
    TheReference();
    TheBytes();
  }

  lemma TwiceIs()
    ensures Twice() == EIGHT + EIGHT && Twice()[0..8] == EIGHT && WellFormed(Ref(Short, 8, 8)) && 16 <= MAX_INPUT_SIZE
  {
    assert Twice()[0..8] == EIGHT;
  }

  lemma TheReference()
    ensures WellFormed(Ref(Short, 8, 8)) && Packed(Print(Ref(Short, 8, 8))) == [0xFE, 0x07, 0x00, 0x1C]
  {
    hide Packed, Print;
    PackedShortRef(8, 8, [0xFE, 0x07, 0x00, 0x1C]);
  }

  lemma TheBytes()
    ensures [0, 1, 0] + (EIGHT + [0xFE, 0x07, 0x00, 0x1C]) ==
            [0, 1, 0, 97, 98, 99, 100, 101, 102, 103, 104, 0xFE, 0x07, 0x00, 0x1C]
  {
  }

  /** Literals followed by a reference. */
  lemma LiteralsThenRef(c: Coder, d: seq<byte>, a: seq<byte>, p: Phrase)
    requires c.Valid() && |d| <= MAX_INPUT_SIZE && WellFormed(p) && Emit(c, d, 0) == Literals(a) + [p]
    ensures Compressed(c, d) == [0, 1, 0] + (a + Packed(Print(p)))
  {
    hide Compressed, Packed, Unpacked, Print, Emit, Literals, PrintAll, WellFormed, AllWellFormed;
    CompressedForm(c, d);
    PrintOne(p);
    PrintConcat(Literals(a), [p]);
    PrintLiterals(a);
    PackedBehind(a, Print(p));
  }

  // ----- A run -----

  /** Two hundred zeros: one literal and a short reference. */
  lemma RunCompressed(c: Coder, d: seq<byte>)
    requires c.Valid() && |d| == 200 && forall k :: 0 <= k < 200 ==> d[k] == 0
    ensures Compressed(c, d) == [0, 1, 0, 0x00, 0xFE, 0xC6, 0x00, 0x00]
  {
    hide *;
    RunPhrases(c, d);
    TheRunReference();
    LiteralsThenRef(c, d, [0], Ref(Short, 1, 199));
  }

  lemma RunPhrases(c: Coder, d: seq<byte>)
    requires c.Valid() && |d| == 200 && forall k :: 0 <= k < 200 ==> d[k] == 0
    ensures Emit(c, d, 0) == Literals([0]) + [Ref(Short, 1, 199)] && 200 <= MAX_INPUT_SIZE
  {
    hide Emit, Step;
    var p := Ref(Short, 1, 199);
    RunPicks(c, d, 0, 200);
    assert Step(c, d, 0) == [Literal(0), p] == Literals([0]) + [p];
    SpanTwo(Literal(0), p);
    EmitUnfold(c, d, 0);
    EmitEnd(c, d);
  }

  lemma TheRunReference()
    ensures WellFormed(Ref(Short, 1, 199)) && Packed(Print(Ref(Short, 1, 199))) == [0xFE, 0xC6, 0x00, 0x00]
  {
    hide Packed, Print;
    PackedShortRef(1, 199, [0xFE, 0xC6, 0x00, 0x00]);
  }

  // ----- Bypassing and going back -----

  /** A reserved byte is bypassed; another byte is written and reverted. */
  lemma BypassExample(c: Coder)
    requires c.Valid()
    ensures var s := AfterConsider(AfterWrite(c, NewState(), [0xFF]));
            && s.out == [0, 1, 1, 0xFF] && s.Ready() && CanRevert(AfterWrite(c, s, [0x07]))
            && AfterWrite(c, s, [0x07]).out == [0, 1, 1, 0xFF, 0x07]
            && AfterRevert(c, AfterWrite(c, s, [0x07])) == s
  {
    hide AfterWrite, Agrees, AfterRevert, ConsideredView;
    var w := OneWritten(c);
    var d: seq<byte> := [0x07];
    var v := WrittenView(FreshView(), [0xFF]);
    ReservedSize(c);
    var s := AfterConsider(w);
    ConsiderAgrees(c, w, v);
    OneInput(c);
    BypassWrite(c, s, d);
    BypassRevert(c, s, ConsideredView(c, v), d);
  }

  lemma ReservedSize(c: Coder)
    requires c.Valid()
    ensures |AfterWrite(c, NewState(), [0xFF]).out| == 8
  {
    hide AfterWrite, Emit;
    SizeAnnounced(c, State([], 0, [], [], 0, 0, 0, false), [0xFF]);
    OneReserved(c);
  }

  lemma OneInput(c: Coder)
    requires c.Valid()
    ensures AfterWrite(c, NewState(), [0xFF]).input == [0xFF] && !AfterWrite(c, NewState(), [0xFF]).bypass
  {
    hide AfterWrite;
    WriteRemembers(c, NewState(), [0xFF]);
    assert [] + [0xFF] == [0xFF];
  }
}
