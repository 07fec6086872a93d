/** What a failed Write leaves behind. It leaves bits in the bit writer, and Reset does not
    remove them. */
module Recovery {
  import opened Options
  import opened Suffixes
  import opened Bits
  import opened Phrases
  import opened Lookup
  import opened BackRefs
  import opened Greedy
  import opened Decompressor
  import opened Sessions
  import opened StreamInfo
  import opened CallerReach
  import opened Machine

  /** What a compressor in state `t` gives for `e` after a Reset. */
  ghost function OutAfterReset(c: Coder, t: State, e: seq<byte>): seq<byte>
    requires c.Valid() && |t.cache| < 8
  {
    AfterWrite(c, AfterReset(t), e).out
  }

  /** After a Reset every Write gives what a new compressor would give. */
  ghost predicate Recovered(c: Coder, t: State)
    requires c.Valid() && |t.cache| < 8
  {
    forall e: seq<byte> :: |e| <= MAX_INPUT_SIZE ==> AfterWrite(c, AfterReset(t), e) == AfterWrite(c, NewState(), e)
  }

  /** After a Reset no Write gives the output of a new compressor. */
  ghost predicate Spoiled(c: Coder, t: State)
    requires c.Valid() && |t.cache| < 8
  {
    forall e: seq<byte> :: |e| <= MAX_INPUT_SIZE ==> OutAfterReset(c, t, e) != AfterWrite(c, NewState(), e).out
  }

  // ----- The output after a Reset -----

  lemma NoBits()
    ensures ToBits(0, 8) == Zeros(8)
  {
    hide Zeros;
    TopZeros(0, 8, 0);
    assert ToBits(0, 0) == [];
  }

  /** The bits left over come between the version and the flag. */
  lemma OutForm(c: Coder, t: State, e: seq<byte>)
    requires c.Valid() && |t.cache| < 8 && |e| <= MAX_INPUT_SIZE
    ensures OutAfterReset(c, t, e) == [0, 1] + Packed(t.cache + (Zeros(8) + Body(c, e, 0)))
  {
    hide Packed, Body, ToBits, Zeros;
    var r := AfterReset(t);
    assert [] + e == e;
    assert r.out[..2] == [0, 1];
    NoBits();
    assert Kept(r) == Zeros(8);
    assert t.cache + Kept(r) + Body(c, e, 0) == t.cache + (Zeros(8) + Body(c, e, 0));
  }

  // ----- It always differs from that of a new compressor -----

  lemma ReferenceShows(kind: Kind, rest: seq<bool>)
    ensures (ToBits(kind.Delimiter(), 8) + rest)[0]
  {
    FirstBit(0xFE);
    FirstBit(0xFF);
  }

  lemma FirstBit(v: nat)
    requires 128 <= v < 256
    ensures ToBits(v, 8)[0]
  {
    hide ToBits, Pow2;
    Powers();
    JoinBits(1, 1, v - 128, 7);
    OneBitMore(0, 1, 1);
    NoneWritten(0);
  }

  /** Only zero bytes print to nothing but zeros. */
  lemma {:induction false} ZerosPrinted(ps: seq<Phrase>)
    requires AllWellFormed(ps) && forall i :: 0 <= i < |PrintAll(ps)| ==> !PrintAll(ps)[i]
    ensures |PrintAll(ps)| % 8 == 0
  {
    hide ToBits;
    if ps != [] {
      var p, rest := ps[0], PrintAll(ps[1..]);
      var all := PrintAll(ps);
      if p.Ref? {
        var more := ToBits(p.len - 1, 8) + ToBits(p.dist - 1, p.kind.AddressBits()) + rest;
        assert all == ToBits(p.kind.Delimiter(), 8) + more;
        ReferenceShows(p.kind, more);
        assert false;
      }
      forall i | 0 <= i < |rest| ensures !rest[i] {
        assert rest[i] == all[|Print(p)| + i];
      }
      ZerosPrinted(ps[1..]);
    }
  }

  /** A bit sequence that starts with zeros and does not change when bits are put in front of it
      has nothing but zeros. */
  lemma {:induction false} ShiftInvariant(r: seq<bool>, z: seq<bool>, i: nat)
    requires 0 < |r| <= 8 <= |z| && i < |z|
    requires forall j :: 0 <= j < 8 ==> !z[j]
    requires forall j :: 0 <= j < |z| ==> z[j] == (r + z)[j]
    ensures !z[i]
  {
    if i >= 8 {
      assert z[i] == z[i - |r|];
      ShiftInvariant(r, z, i - |r|);
    }
  }

  lemma PackedDiffer(r: seq<bool>, ps: seq<Phrase>)
    requires 0 < |r| < 8 && AllWellFormed(ps)
    ensures var z := Zeros(8) + PrintAll(ps); Packed(r + z) != Packed(z)
  {
    hide Packed, Unpacked, PrintAll, Zeros, Padding;
    var b := PrintAll(ps);
    var z := Zeros(8) + b;
    if Packed(r + z) == Packed(z) {
      UnpackPacked(r + z);
      UnpackPacked(z);
      var p, q := Zeros(Padding(|r + z|)), Zeros(Padding(|z|));
      assert r + z + p == z + q;
      forall j | 0 <= j < |z| ensures z[j] == (r + z)[j] {
        assert z[j] == (z + q)[j] == (r + z + p)[j] == (r + z)[j];
      }
      forall i | 0 <= i < |b| ensures !b[i] {
        ShiftInvariant(r, z, i + 8);
        assert b[i] == z[i + 8];
      }
      ZerosPrinted(ps);
    }
  }

  lemma OutputsDiffer(c: Coder, t: State, e: seq<byte>)
    requires c.Valid() && 0 < |t.cache| < 8 && |e| <= MAX_INPUT_SIZE
    ensures OutAfterReset(c, t, e) != AfterWrite(c, NewState(), e).out
  {
    hide AfterWrite, Packed, Emit, PrintAll, Covers, AllWellFormed;
    OutForm(c, t, e);
    var blank := State([], 0, [], [], 0, 0, 0, false);
    OutForm(c, blank, e);
    EmitCovers(c, e, 0);
    CoversForm(c.dict, e, 0, |e|, Emit(c, e, 0));
    var z := Zeros(8) + Body(c, e, 0);
    assert [] + z == z;
    PackedDiffer(t.cache, Emit(c, e, 0));
    BehindDiffer([0, 1], Packed(t.cache + z), Packed(z));
  }

  lemma BehindDiffer<T>(a: seq<T>, b: seq<T>, c: seq<T>)
    requires b != c
    ensures a + b != a + c
  {
    if a + b == a + c {
      SplitSame(a, b, a, c);
    }
  }

  // ----- When Reset is enough -----

  lemma LeftBits(kept: seq<bool>)
    requires |kept| <= 8
    ensures Rest(kept) == if |kept| == 8 then [] else kept
  {
    assert kept[0..] == kept;
  }

  /** A failed Write leaves the input as it is, and the bits in use of the last byte in the bit
      writer instead of the output, if the byte has padding; then what it remembers as the length
      of the output is too long for a Revert. */
  lemma FailedWrite(c: Coder, s: State, v: View, d: seq<byte>)
    requires c.Valid() && Agrees(c, s, v) && TooLong(s, d)
    ensures var t := AfterWrite(c, s, d);
            && t.cache == (if s.skipped == 0 then [] else Kept(s))
            && t.out == (if s.skipped == 0 then s.out else s.out[..|s.out| - 1])
            && t.input == s.input && t.lastIn == s.lastIn && t.bypass == s.bypass && t.skipped == s.skipped
            && t.lastOut == |s.out| && t.lastSkipped == s.skipped
            && (!s.bypass ==> (CanRevert(t) <==> s.skipped == 0 || s.lastIn == -1))
  {
    hide Packed, Body, Tail, Agrees, Whole, Rest;
    assert s.cache + Kept(s) == Kept(s);
    LeftBits(Kept(s));
    if s.skipped == 0 {
      LastByte(s.out);
    } else {
      WholeOfFew(Kept(s));
    }
  }

  lemma WholeOfFew(s: seq<bool>)
    requires |s| < 8
    ensures Whole(s) == []
  {
    hide Packed;
    PackedNone();
    assert s[..0] == [];
  }

  /** After a failed Write, Reset gives a compressor as good as new exactly when the last byte
      had no padding. When it had, no output is ever that of a new compressor again. */
  lemma ResetRecovers(c: Coder, s: State, v: View, d: seq<byte>)
    requires c.Valid() && Agrees(c, s, v) && TooLong(s, d)
    ensures |AfterWrite(c, s, d).cache| < 8
    ensures Recovered(c, AfterWrite(c, s, d)) <==> s.skipped == 0
    ensures Spoiled(c, AfterWrite(c, s, d)) <==> s.skipped != 0
  {
    hide AfterWrite, Agrees, OutAfterReset;
    FailedWrite(c, s, v, d);
    var t := AfterWrite(c, s, d);
    var e: seq<byte> := [];
    if s.skipped == 0 {
      assert AfterReset(t) == NewState();
      SameOut(c, t, e);
    } else {
      forall e: seq<byte> | |e| <= MAX_INPUT_SIZE
        ensures OutAfterReset(c, t, e) != AfterWrite(c, NewState(), e).out
      {
        OutputsDiffer(c, t, e);
      }
      NotRecovered(c, t);
    }
  }

  lemma SameOut(c: Coder, t: State, e: seq<byte>)
    requires c.Valid() && |t.cache| < 8 && AfterReset(t) == NewState()
    ensures OutAfterReset(c, t, e) == AfterWrite(c, NewState(), e).out
  {
    hide AfterWrite;
  }

  lemma NotRecovered(c: Coder, t: State)
    requires c.Valid() && |t.cache| < 8 && Spoiled(c, t)
    ensures !Recovered(c, t)
  {
    hide AfterWrite;
    var e: seq<byte> := [];
    assert OutAfterReset(c, t, e) != AfterWrite(c, NewState(), e).out;
  }

  /** One reserved byte and a Write that is too long spoil a new compressor. */
  lemma ResetExample(c: Coder, d: seq<byte>)
    requires c.Valid() && |d| >= MAX_INPUT_SIZE
    ensures var t := AfterWrite(c, AfterWrite(c, NewState(), [0xFF]), d);
            |t.cache| < 8 && !Recovered(c, t) && Spoiled(c, t)
  {
    hide AfterWrite, Agrees, Recovered, Spoiled;
    var s := OneWritten(c);
    ResetRecovers(c, s, WrittenView(FreshView(), [0xFF]), d);
  }

  lemma OneWritten(c: Coder) returns (s: State)
    requires c.Valid()
    ensures s == AfterWrite(c, NewState(), [0xFF]) && s.skipped == 3 && |s.input| == 1
    ensures Agrees(c, s, WrittenView(FreshView(), [0xFF]))
  {
    hide Packed, Tail, Agrees, Emit, PrintAll, Covers;
    var d: seq<byte> := [0xFF];
    s := AfterWrite(c, NewState(), d);
    ResetAgrees(c, State([], 0, [], [], 0, 0, 0, false));
    WriteAgrees(c, NewState(), FreshView(), d);
    assert [] + d == d;
    OneReserved(c);
    EmitCovers(c, d, 0);
    CoversForm(c.dict, d, 0, 1, Emit(c, d, 0));
    PrintSize(Emit(c, d, 0));
  }

  lemma OneReserved(c: Coder)
    requires c.Valid()
    ensures TotalCost(Emit(c, [0xFF], 0)) == 37
  {
    hide BestRef, Step, Savings;
    var d: seq<byte> := [0xFF];
    StepAtEnd(c, d);
    var b := BestRef(c.dict, d, 0);
    StepCovers(c, d, 0);
    EmitOne(c, d, ToPhrase(b, 0));
    NoShort(c.dict, d);
    CostOfOne(ToPhrase(b, 0));
  }

  /** A single round that covers everything is all there is. */
  lemma EmitOne(c: Coder, d: seq<byte>, p: Phrase)
    requires c.Valid() && d != [] && Step(c, d, 0) == [p] && Span(p) == |d|
    ensures Emit(c, d, 0) == [p]
  {
    hide Step;
    SpanOne(p);
    assert Emit(c, d, |d|) == [];
  }

  /** At the start of the data there is nothing that a short reference could refer to. */
  lemma NoShort(dict: seq<byte>, d: seq<byte>)
    requires d != []
    ensures FoundRef(dict, d, 0, Short).length == -1 && BestRef(dict, d, 0) == FoundRef(dict, d, 0, Dynamic)
  {
    hide FoundRef;
    FoundIsRef(dict, d, 0, Short);
    FoundKind(dict, d, 0);
  }

  lemma CostOfOne(p: Phrase)
    ensures TotalCost([p]) == Cost(p)
  {
    assert [p][1..] == [];
  }

  // ----- What decompressing gives -----

  lemma EvenBits(b: byte, r: seq<bool>)
    requires |r| < 8 && true in r && ToBits(b, 8) == r + Zeros(8 - |r|)
    ensures b >= 2
  {
    hide Zeros, ToBits;
    var bits := ToBits(b, 8);
    assert !bits[7];
    LastBit(b);
    var i :| 0 <= i < |r| && r[i];
    assert bits[i];
    NoBits();
  }

  lemma LastBit(v: nat)
    ensures ToBits(v, 8)[7] == (v % 2 == 1)
  {
  }

  /** The first byte of a packed stream. */
  lemma FirstPacked(s: seq<bool>)
    requires |s| >= 8
    ensures |Packed(s)| > 0 && ToBits(Packed(s)[0], 8) == s[..8]
  {
    hide ByteOf;
  }

  /** If one of the bits left over is set, the flag is broken and everything is rejected. */
  lemma OnesRejected(c: Coder, t: State, e: seq<byte>, dict: seq<byte>)
    requires c.Valid() && |t.cache| < 8 && true in t.cache && |e| <= MAX_INPUT_SIZE
    ensures Decompressed(OutAfterReset(c, t, e), dict) == None
  {
    hide OutAfterReset, Packed, Body, ToBits, Decode, Unpacked;
    OutForm(c, t, e);
    var r, out := t.cache, OutAfterReset(c, t, e);
    var s := r + (Zeros(8) + Body(c, e, 0));
    FirstPacked(s);
    assert s[..8] == r + Zeros(8 - |r|);
    EvenBits(Packed(s)[0], r);
    assert out[2] == Packed(s)[0];
  }

  lemma ZerosMove(r: seq<bool>, b: seq<bool>)
    requires true !in r
    ensures r + (Zeros(8) + b) == Zeros(8) + (Zeros(|r|) + b)
  {
    forall i | 0 <= i < |r| ensures !r[i] {
      assert r[i] in r;
    }
    assert r == Zeros(|r|);
  }

  /** If not, the phrases follow the header with the zeros in front of them. */
  lemma ZerosShift(c: Coder, t: State, e: seq<byte>, dict: seq<byte>) returns (pad: seq<bool>)
    requires c.Valid() && |t.cache| < 8 && true !in t.cache && |e| <= MAX_INPUT_SIZE
    ensures |pad| < 8 && (|t.cache| + |Body(c, e, 0)| + |pad|) % 8 == 0
    ensures OutAfterReset(c, t, e) == Header(false) + Packed(Zeros(|t.cache|) + Body(c, e, 0))
    ensures Decompressed(OutAfterReset(c, t, e), dict) ==
            Decode(Zeros(|t.cache|) + Body(c, e, 0) + pad, Augmented(dict), [])
  {
    hide OutAfterReset, Packed, Body, ToBits, Decode, Unpacked, Augmented, Padding, Zeros, ByteOf;
    OutForm(c, t, e);
    var x := Zeros(|t.cache|) + Body(c, e, 0);
    ZerosMove(t.cache, Body(c, e, 0));
    PackedConcat(Zeros(8), x);
    NoBits();
    PackedByte(Zeros(8));
    UnpackedOne(0);
    UnpackedOne(ByteOf(Zeros(8)));
    UnpackedInjective([ByteOf(Zeros(8))], [0]);
    var out := OutAfterReset(c, t, e);
    assert out == [0, 1, 0] + Packed(x);
    assert out[3..] == Packed(x);
    UnpackPacked(x);
    pad := Zeros(Padding(|x|));
  }

  lemma {:induction false} NoValue(k: nat)
    ensures Value(Zeros(k)) == 0
  {
    if k > 0 {
      assert Zeros(k)[..k - 1] == Zeros(k - 1);
      NoValue(k - 1);
    }
  }

  lemma {:induction false} LeadingZeros(k: nat, s: seq<bool>)
    ensures Value(Zeros(k) + s) == Value(s)
  {
    hide Zeros;
    var z := Zeros(k) + s;
    if s == [] {
      NoValue(k);
      assert z == Zeros(k);
    } else {
      assert z[..|z| - 1] == Zeros(k) + s[..|s| - 1];
      LeadingZeros(k, s[..|s| - 1]);
    }
  }

  lemma {:induction false} ShiftSmall(v: nat, n: nat, k: nat)
    requires k <= n && v < Pow2(n)
    ensures ShiftRight(v, k) < Pow2(n - k)
    decreases k
  {
    if k > 0 {
      ShiftSmall(v / 2, n - 1, k - 1);
    }
  }

  lemma {:induction false} ShiftHalf(v: nat, k: nat)
    ensures ShiftRight(v, k) <= v && (0 < k ==> 2 * ShiftRight(v, k) <= v)
    decreases k
  {
    if k > 0 {
      ShiftHalf(v / 2, k - 1);
    }
  }

  /** With zeros in front of it, a byte is read shifted. */
  lemma ReadShifted(k: nat, x: byte, rest: seq<bool>)
    requires 0 < k < 8
    ensures var s := Zeros(k) + (ToBits(x, 8) + rest);
            && ShiftRight(x, k) < 128
            && ReadOne(s) == Got(Literal(ShiftRight(x, k)), 8) && s[8..] == ToBits(x, 8)[8 - k..] + rest
  {
    hide ToBits, Zeros, Value, Pow2, ShiftRight, ReadOne;
    var s, bits := Zeros(k) + (ToBits(x, 8) + rest), ToBits(x, 8);
    Powers();
    ShiftHalf(x, k);
    ShiftedBits(x, 8, k);
    ShiftSmall(x, 8, k);
    var y := ShiftRight(x, k);
    assert s[..8] == Zeros(k) + bits[..8 - k];
    LeadingZeros(k, bits[..8 - k]);
    ReadBack(y, 8 - k);
    LowSmall(y, 8 - k);
    ReadLiteral(s, y);
    assert s[8..] == bits[8 - k..] + rest;
  }

  lemma ReadLiteral(s: seq<bool>, y: byte)
    requires |s| >= 8 && Value(s[..8]) == y && y < 128
    ensures ReadOne(s) == Got(Literal(y), 8)
  {
  }

  lemma {:induction false} DecodeKeeps(s: seq<bool>, dict: seq<byte>, out: seq<byte>)
    requires Decode(s, dict, out).Some?
    ensures out <= Decode(s, dict, out).value
    decreases |s|
  {
    hide ReadOne, Apply;
    var r := ReadOne(s);
    if r.Got? {
      DecodeKeeps(s[r.size..], dict, Apply(dict, out, r.phrase).value);
    }
  }

  /** A literal that is read first comes next in the output. */
  lemma NextByte(s: seq<bool>, dict: seq<byte>, out: seq<byte>, b: byte, e: seq<byte>)
    requires ReadOne(s) == Got(Literal(b), 8) && Decode(s, dict, out) == Some(e)
    ensures |out| < |e| && e[|out|] == b && Decode(s[8..], dict, out + [b]) == Some(e)
  {
    hide ReadOne;
    DecodeKeeps(s[8..], dict, out + [b]);
    assert (out + [b])[|out|] == b;
  }

  /** The first byte of `e` that is not 0 is what is left of a delimiter after `k` shifts. */
  ghost predicate StartsByChance(e: seq<byte>, k: nat)
  {
    exists i :: 0 <= i < |e| && e[i] == ShiftRight(0xFF, k) && forall j :: 0 <= j < i ==> e[j] == 0
  }

  lemma DelimiterShift(kind: Kind, k: nat)
    requires 0 < k
    ensures ShiftRight(kind.Delimiter(), k) == ShiftRight(0xFF, k)
  {
  }

  lemma ZeroTail(k: nat)
    requires k <= 8
    ensures ToBits(0, 8)[8 - k..] == Zeros(k)
  {
    hide Zeros;
    NoBits();
  }

  lemma {:induction false} ShiftedDecode(base: seq<byte>, dict: seq<byte>, e: seq<byte>, i: nat,
                                         ps: seq<Phrase>, pad: seq<bool>, k: nat)
    requires 0 < k < 8 && i <= |e| && Covers(base, e, i, |e|, ps) && AllWellFormed(ps)
    requires forall j :: 0 <= j < i ==> e[j] == 0
    requires (k + |PrintAll(ps)| + |pad|) % 8 == 0
    requires Decode(Zeros(k) + PrintAll(ps) + pad, dict, e[..i]) == Some(e)
    ensures StartsByChance(e, k)
    decreases |ps|
  {
    hide ToBits, Zeros, Decode, ShiftRight, StartsByChance, Means;
    if ps == [] {
      assert Zeros(k) + PrintAll(ps) + pad == Zeros(k) + pad && e[..i] == e;
      OneByteMore(dict, e, pad, k);
    } else {
      var more := PrintAll(ps[1..]);
      match ps[0] {
        case Literal(x) =>
          LiteralIsByte(base, e, i, x);
          ShiftedLiteral(dict, e, i, x, more, pad, k);
          ShiftedDecode(base, dict, e, i + 1, ps[1..], pad, k);
        case Ref(kind, dist, len) =>
          var fields := ToBits(len - 1, 8) + ToBits(dist - 1, kind.AddressBits());
          assert PrintAll(ps) == ToBits(kind.Delimiter(), 8) + (fields + more);
          ShiftedRef(dict, e, i, kind, fields + more, pad, k);
          ChanceAt(e, k, i);
      }
    }
  }

  /** A literal that comes out right is 0, and then the shift goes on. */
  lemma ShiftedLiteral(dict: seq<byte>, e: seq<byte>, i: nat, x: byte, more: seq<bool>, pad: seq<bool>, k: nat)
    requires 0 < k < 8 && i < |e| && e[i] == x
    requires Decode(Zeros(k) + (ToBits(x, 8) + more) + pad, dict, e[..i]) == Some(e)
    ensures x == 0 && Decode(Zeros(k) + more + pad, dict, e[..i + 1]) == Some(e)
  {
    hide *;
    var s, rest := Zeros(k) + (ToBits(x, 8) + more) + pad, more + pad;
    assert s == Zeros(k) + (ToBits(x, 8) + rest);
    ReadShifted(k, x, rest);
    NextByte(s, dict, e[..i], ShiftRight(x, k), e);
    ShiftHalf(x, k);
    ZeroTail(k);
    assert e[..i] + [x] == e[..i + 1];
    assert Zeros(k) + rest == Zeros(k) + more + pad;
  }

  lemma ShiftedRef(dict: seq<byte>, e: seq<byte>, i: nat, kind: Kind, more: seq<bool>, pad: seq<bool>, k: nat)
    requires 0 < k < 8 && i <= |e|
    requires Decode(Zeros(k) + (ToBits(kind.Delimiter(), 8) + more) + pad, dict, e[..i]) == Some(e)
    ensures i < |e| && e[i] == ShiftRight(0xFF, k)
  {
    hide *;
    var x, rest := kind.Delimiter(), more + pad;
    var s := Zeros(k) + (ToBits(x, 8) + more) + pad;
    assert s == Zeros(k) + (ToBits(x, 8) + rest);
    ReadShifted(k, x, rest);
    NextByte(s, dict, e[..i], ShiftRight(x, k), e);
    DelimiterShift(kind, k);
  }

  lemma LiteralIsByte(dict: seq<byte>, e: seq<byte>, i: nat, x: byte)
    requires Means(dict, e, i, Literal(x))
    ensures i < |e| && e[i] == x
  {
  }

  lemma ChanceAt(e: seq<byte>, k: nat, i: nat)
    requires i < |e| && e[i] == ShiftRight(0xFF, k) && forall j :: 0 <= j < i ==> e[j] == 0
    ensures StartsByChance(e, k)
  {
    hide ShiftRight;
  }

  /** Behind the last phrase there is room for one more byte. */
  lemma OneByteMore(dict: seq<byte>, e: seq<byte>, pad: seq<bool>, k: nat)
    requires 0 < k < 8 && (k + |pad|) % 8 == 0
    ensures Decode(Zeros(k) + pad, dict, e) != Some(e)
  {
    hide Zeros, Decode, ReadOne, Value;
    var s := Zeros(k) + pad;
    assert |s| >= 8;
    var v := s[1..8];
    assert s[..8] == Zeros(1) + v;
    LeadingZeros(1, v);
    WriteBack(v);
    Powers();
    ReadLiteral(s, Value(v));
    if Decode(s, dict, e) == Some(e) {
      NextByte(s, dict, e, Value(v), e);
    }
  }

  /** After a Reset, data can be had back from a compressor with bits left over by chance only:
      the bits are all 0, and the first byte of the data other than 0 is 0xFF shifted by their
      number. */
  lemma OnlyByChance(c: Coder, t: State, e: seq<byte>, dict: seq<byte>)
    requires c.Valid() && 0 < |t.cache| < 8 && |e| <= MAX_INPUT_SIZE
    requires Decompressed(OutAfterReset(c, t, e), dict) == Some(e)
    ensures true !in t.cache && StartsByChance(e, |t.cache|)
  {
    hide *;
    if true in t.cache {
      OnesRejected(c, t, e, dict);
    } else {
      var pad := ZerosShift(c, t, e, dict);
      BodyPrints(c, e);
      assert e[..0] == [];
      ShiftedDecode(c.dict, Augmented(dict), e, 0, Emit(c, e, 0), pad, |t.cache|);
    }
  }

  lemma BodyPrints(c: Coder, e: seq<byte>)
    requires c.Valid()
    ensures var ps := Emit(c, e, 0);
            AllWellFormed(ps) && Covers(c.dict, e, 0, |e|, ps) && Body(c, e, 0) == PrintAll(ps)
  {
    hide Emit, PrintAll, Covers;
    EmitCovers(c, e, 0);
    CoversForm(c.dict, e, 0, |e|, Emit(c, e, 0));
  }

  // ----- An example of such a chance -----

  const LUCKY: seq<byte> := [0x07, 0xF8, 0x28, 0x00, 0x01, 0xC0]

  ghost predicate Lucky(c: Coder)
    ensures Lucky(c) ==> c.Valid()
  {
    c.Valid() && c.dict == Augmented(LUCKY)
  }

  lemma LuckyDict()
    ensures Augmented(LUCKY) == LUCKY + [0xFE, 0xFF] && |LUCKY| == 6
  {
  }

  /** The dictionary as data is one reference to the dictionary. */
  lemma LuckyFound()
    ensures FoundRef(Augmented(LUCKY), LUCKY, 0, Dynamic) == Backref(Dynamic, 0, 6, 8)
  {
    hide LongestMatch, Less;
    LuckyDict();
    var aug, d := Augmented(LUCKY), LUCKY;
    assert d[0..6] == d && d[..6] == d && d[..5] == [0x07, 0xF8, 0x28, 0x00, 0x01];
    var here := LongestMatch(d, d, 5, 6, 0, 0);
    assert here.length == -1;
    var m := LongestMatch(aug, d, 5, 6, 0, 8);
    assert aug[0..6] == d && aug[0..5] == d[..5];
    assert Occurs(aug, d, 6, 0, 8, 0) && Occurs(aug, d, 5, 0, 8, 0);
    assert m.length == 6 && Occurs(aug, d, 6, 0, 8, m.index);
    assert aug[m.index..m.index + 6][0] == aug[m.index];
  }

  lemma LuckyEmit(c: Coder)
    requires Lucky(c)
    ensures Emit(c, LUCKY, 0) == [Ref(Dynamic, 8, 6)]
  {
    hide FoundRef, Augmented;
    var d := LUCKY;
    LuckyDict();
    LuckyFound();
    NoShort(c.dict, d);
    assert RunFrom(d, 0, 0) <= 1;
    SavesAtMost(c.dict, d, 1);
    SavesAtMost(c.dict, d, 2);
    EmitOne(c, d, Ref(Dynamic, 8, 6));
  }

  /** A reference saves at most all but 30 of the bits that are left. */
  lemma SavesAtMost(dict: seq<byte>, d: seq<byte>, i: nat)
    requires i < |d|
    ensures Savings(BestRef(dict, d, i)) <= 8 * (|d| - i) - 30
  {
    hide BestRef;
    BestIsRef(dict, d, i);
  }

  lemma LuckyBits()
    ensures Zeros(5) + Print(Ref(Dynamic, 8, 6)) + Zeros(6) == Unpacked(LUCKY)
  {
    hide Unpacked, Zeros, ToBits, Pow2;
    LuckyStream();
    LuckyBytes();
    SixUnpacked(LUCKY);
    assert Zeros(5) + Print(Ref(Dynamic, 8, 6)) + Zeros(6) == Zeros(5) + ToBits(0xFF, 8) + ToBits(5, 8) + ToBits(7, 21) + Zeros(6);
  }

  /** The stream as a number. */
  lemma LuckyStream()
    ensures Zeros(5) + ToBits(0xFF, 8) + ToBits(5, 8) + ToBits(7, 21) + Zeros(6) == ToBits(0x07F8_2800_01C0, 48)
  {
    hide Zeros, ToBits, Pow2;
    Powers();
    TopZeros(0xFF, 13, 8);
    JoinBits(0xFF, 13, 5, 8);
    JoinBits(0xFF05, 21, 7, 21);
    TopZeros(0, 6, 0);
    NoneWritten(0);
    JoinBits(0xFF05 * 0x20_0000 + 7, 42, 0, 6);
  }

  lemma NoneWritten(v: nat)
    ensures ToBits(v, 0) == []
  {
  }

  /** The bytes as a number. */
  lemma LuckyBytes()
    ensures ToBits(0x07, 8) + ToBits(0xF8, 8) + ToBits(0x28, 8) + ToBits(0x00, 8) + ToBits(0x01, 8) + ToBits(0xC0, 8) ==
            ToBits(0x07F8_2800_01C0, 48)
  {
    hide ToBits, Pow2;
    Powers();
    JoinBits(0x07, 8, 0xF8, 8);
    JoinBits(0x07F8, 16, 0x28, 8);
    JoinBits(0x07_F828, 24, 0x00, 8);
    JoinBits(0x07F8_2800, 32, 0x01, 8);
    JoinBits(0x07_F828_0001, 40, 0xC0, 8);
  }

  lemma SixUnpacked(a: seq<byte>)
    requires |a| == 6
    ensures Unpacked(a) == ToBits(a[0], 8) + ToBits(a[1], 8) + ToBits(a[2], 8) + ToBits(a[3], 8) + ToBits(a[4], 8) + ToBits(a[5], 8)
  {
    hide Unpacked, ToBits;
    LastBits(a);
    LastBits(a[..5]);
    LastBits(a[..4]);
    LastBits(a[..3]);
    LastBits(a[..2]);
    LastBits(a[..1]);
    assert a[..5][..4] == a[..4] && a[..4][..3] == a[..3] && a[..3][..2] == a[..2] && a[..2][..1] == a[..1] && a[..1][..0] == [];
    PackedNone();
  }

  /** Five zeros in front of the dictionary's own reference to itself are the dictionary. */
  lemma LuckyOut(c: Coder, t: State)
    requires Lucky(c) && t.cache == Zeros(5)
    ensures OutAfterReset(c, t, LUCKY) == Header(false) + LUCKY
  {
    hide OutAfterReset, Packed, Unpacked, Zeros, Print, Emit, LUCKY;
    LuckyDict();
    NoOnes(t.cache);
    var pad := ZerosShift(c, t, LUCKY, []);
    LuckyEmit(c);
    var p := Ref(Dynamic, 8, 6);
    PrintOne(p);
    UnpackPacked(Zeros(5) + Print(p));
    LuckyBits();
    UnpackedInjective(Packed(Zeros(5) + Print(p)), LUCKY);
  }

  lemma NoOnes(s: seq<bool>)
    requires s == Zeros(|s|)
    ensures true !in s
  {
  }

  lemma PrintOne(p: Phrase)
    requires WellFormed(p)
    ensures AllWellFormed([p]) && PrintAll([p]) == Print(p)
  {
    hide Print;
    assert [p][1..] == [];
    assert Print(p) + [] == Print(p);
  }

  /** One reserved byte leaves five zeros. */
  lemma LuckyKept(c: Coder)
    requires Lucky(c)
    ensures var s := AfterWrite(c, NewState(), [0xFF]); s.Ready() && s.skipped == 3 && Kept(s) == Zeros(5)
  {
    hide Agrees, AfterWrite, Shows, Unpacked, Zeros, Tail, Stream, Emit, PrintAll, Print;
    var s := OneWritten(c);
    var d: seq<byte> := [0xFF];
    LuckyByte(c);
    WrittenShows(c, s, d);
    TailIsRest(Stream(c, [d]), s.out, s.skipped);
    FirstChunk(c, d);
    EndsInZeros(c, d);
    LastOf(Unpacked(s.out[..|s.out| - 1]), Kept(s), Stream(c, [d]), 5);
  }

  /** The last byte of the augmented dictionary has the smallest suffix of its kind. */
  lemma LuckyByte(c: Coder)
    requires Lucky(c)
    ensures Emit(c, [0xFF], 0) == [Ref(Dynamic, 1, 1)]
  {
    hide FoundRef, BestRef, Augmented;
    var d: seq<byte> := [0xFF];
    LuckyDict();
    StepAtEnd(c, d);
    NoShort(c.dict, d);
    LuckyLast();
    EmitOne(c, d, Ref(Dynamic, 1, 1));
  }

  lemma LuckyLast()
    ensures FoundRef(Augmented(LUCKY), [0xFF], 0, Dynamic) == Backref(Dynamic, 7, 1, 8)
  {
    hide LongestMatch, Less, HasPrefix;
    LuckyDict();
    var aug, d: seq<byte> := Augmented(LUCKY), [0xFF];
    assert d[0..1] == d;
    var here := LongestMatch(d, d, 1, 1, 0, 0);
    assert here.length == -1;
    var m := LongestMatch(aug, d, 1, 1, 0, 8);
    OccursOne(aug, 0xFF, 0, 8, 7);
    OccursOne(aug, 0xFF, 0, 8, m.index);
    assert Occurs(aug, d, 1, 0, 8, 7);
    assert m.length == 1 && Occurs(aug, d, 1, 0, 8, m.index);
  }

  lemma WrittenShows(c: Coder, s: State, d: seq<byte>)
    requires c.Valid() && Agrees(c, s, WrittenView(FreshView(), d))
    ensures 0 < |s.out| && s.skipped < 8 && Shows(Stream(c, [d]), s.out, s.skipped)
  {
    hide Stream, Shows;
    assert [] + [d] == [d];
  }

  lemma EndsInZeros(c: Coder, d: seq<byte>)
    requires c.Valid() && AllPhrases(c, [d]) == [Ref(Dynamic, 1, 1)]
    ensures var s := Stream(c, [d]); |s| >= 5 && s[|s| - 5..] == Zeros(5)
  {
    hide AllPhrases, Unpacked, ToBits, Zeros, Print;
    var p := Ref(Dynamic, 1, 1);
    PrintOne(p);
    var s := Stream(c, [d]);
    PrintEnd();
    assert s[|s| - 5..] == Print(p)[32..];
  }

  lemma PrintEnd()
    ensures Print(Ref(Dynamic, 1, 1))[32..] == Zeros(5)
  {
    hide ToBits, Zeros;
    TopZeros(0, 21, 0);
    assert ToBits(0, 0) == [];
  }

  lemma LastOf<T>(a: seq<T>, b: seq<T>, s: seq<T>, n: nat)
    requires a + b == s && |b| == n
    ensures s[|s| - n..] == b
  {
  }

  /** After one reserved byte, a Write that is too long and a Reset, the dictionary can be had
      back, although the output is not that of a new compressor. */
  lemma LuckyExample(c: Coder, d: seq<byte>)
    requires Lucky(c) && |d| >= MAX_INPUT_SIZE
    ensures var t := AfterWrite(c, AfterWrite(c, NewState(), [0xFF]), d);
            |t.cache| == 5 && Spoiled(c, t) && Decompressed(OutAfterReset(c, t, LUCKY), LUCKY) == Some(LUCKY)
  {
    hide AfterWrite, Agrees, Spoiled, Recovered, OutAfterReset, Zeros, Decode, Kept;
    ResetExample(c, d);
    var s := OneWritten(c);
    FailedWrite(c, s, WrittenView(FreshView(), [0xFF]), d);
    LuckyKept(c);
    var t := AfterWrite(c, s, d);
    LuckyOut(c, t);
    LuckyRead();
  }

  lemma LuckyRead()
    ensures Decompressed(Header(false) + LUCKY, LUCKY) == Some(LUCKY)
  {
    hide Decode, Unpacked;
    var out := Header(false) + LUCKY;
    assert out[3..] == LUCKY;
    DecodeLiterals(Augmented(LUCKY), [], LUCKY, []);
    EndsHere([], Augmented(LUCKY), LUCKY);
    assert Unpacked(LUCKY) + [] == Unpacked(LUCKY) && [] + LUCKY == LUCKY;
  }
}
