/** Phrases: what the compressed stream consists of, how they are written as bits and read
    back, and what they mean. */
module Phrases {
  import opened Options
  import opened Bits

  /** The two kinds of back-references. */
  datatype Kind = Short | Dynamic
  {
    function Delimiter(): byte
    {
      if Short? then 0xFE else 0xFF
    }

    function AddressBits(): nat
    {
      if Short? then 14 else 21
    }

    function NbBits(): nat
    {
      8 + AddressBits() + 8
    }

    function NbBytes(): nat
    {
      (NbBits() + 7) / 8
    }

    function MaxAddress(): nat
    {
      if Short? then 0x4000 else 0x20_0000
    }
  }

  /** A literal byte, or `len` bytes copied from `dist` bytes back. */
  datatype Phrase = Literal(b: byte) | Ref(kind: Kind, dist: nat, len: nat)

  predicate CanEncode(b: byte)
  {
    b != 0xFF && b != 0xFE
  }

  predicate WellFormed(p: Phrase)
  {
    p.Ref? ==> p.dist >= 1 && p.len >= 1
  }

  /** The phrase has an encoding that means it. */
  predicate Fits(p: Phrase)
  {
    match p
    case Literal(b) => CanEncode(b)
    case Ref(kind, dist, len) => 1 <= dist <= kind.MaxAddress() && 1 <= len <= 256
  }

  /** The number of output bytes of a phrase, and of bits of its encoding. */
  function Span(p: Phrase): nat
  {
    match p
    case Literal(_) => 1
    case Ref(_, _, len) => len
  }

  function Cost(p: Phrase): nat
  {
    match p
    case Literal(_) => 8
    case Ref(kind, _, _) => kind.NbBits()
  }

  function Print(p: Phrase): (s: seq<bool>)
    requires WellFormed(p)
    ensures |s| == Cost(p)
  {
    match p
    case Literal(b) => ToBits(b, 8)
    case Ref(kind, dist, len) =>
      ToBits(kind.Delimiter(), 8) + ToBits(len - 1, 8) + ToBits(dist - 1, kind.AddressBits())
  }

  ghost predicate AllWellFormed(ps: seq<Phrase>)
  {
    forall i :: 0 <= i < |ps| ==> WellFormed(ps[i])
  }

  ghost predicate AllFit(ps: seq<Phrase>)
    ensures AllFit(ps) ==> AllWellFormed(ps)
  {
    forall i :: 0 <= i < |ps| ==> Fits(ps[i])
  }

  ghost function PrintAll(ps: seq<Phrase>): (s: seq<bool>)
    requires AllWellFormed(ps)
  {
    if ps == [] then [] else Print(ps[0]) + PrintAll(ps[1..])
  }

  ghost function TotalCost(ps: seq<Phrase>): nat
  {
    if ps == [] then 0 else Cost(ps[0]) + TotalCost(ps[1..])
  }

  ghost function TotalSpan(ps: seq<Phrase>): nat
  {
    if ps == [] then 0 else Span(ps[0]) + TotalSpan(ps[1..])
  }

  lemma {:induction false} PrintConcat(ps: seq<Phrase>, qs: seq<Phrase>)
    requires AllWellFormed(ps) && AllWellFormed(qs)
    ensures AllWellFormed(ps + qs) && PrintAll(ps + qs) == PrintAll(ps) + PrintAll(qs)
  {
    hide Print;
    if ps == [] {
      assert ps + qs == qs;
    } else {
      PrintConcat(ps[1..], qs);
      assert (ps + qs)[1..] == ps[1..] + qs;
      assert PrintAll(ps + qs) == Print(ps[0]) + PrintAll(ps[1..] + qs);
    }
  }

  lemma {:induction false} TotalsConcat(ps: seq<Phrase>, qs: seq<Phrase>)
    ensures TotalCost(ps + qs) == TotalCost(ps) + TotalCost(qs)
    ensures TotalSpan(ps + qs) == TotalSpan(ps) + TotalSpan(qs)
  {
    if ps == [] {
      assert ps + qs == qs;
    } else {
      TotalsConcat(ps[1..], qs);
      assert (ps + qs)[1..] == ps[1..] + qs;
    }
  }

  lemma {:induction false} PrintSize(ps: seq<Phrase>)
    requires AllWellFormed(ps)
    ensures |PrintAll(ps)| == TotalCost(ps)
  {
    if ps != [] {
      PrintSize(ps[1..]);
    }
  }

  // ----- Reading -----

  datatype Reading = End | Bad | Got(phrase: Phrase, size: nat)

  /** Reads one phrase. Fewer than eight bits mean the end of the stream; a reference that is
      cut short is an error. */
  function ReadOne(s: seq<bool>): (r: Reading)
    ensures r.Got? ==> 8 <= r.size <= |s| && r.size == Cost(r.phrase) && WellFormed(r.phrase)
  {
    if |s| < 8 then End
    else
      ByteFrom(s[..8]);
      var b := Value(s[..8]);
      if b == 0xFE then ReadRef(s, Short)
      else if b == 0xFF then ReadRef(s, Dynamic)
      else Got(Literal(b), 8)
  }

  function ReadRef(s: seq<bool>, kind: Kind): Reading
    requires 8 <= |s|
  {
    if |s| < kind.NbBits() then Bad
    else Got(Ref(kind, Value(s[16..kind.NbBits()]) + 1, Value(s[8..16]) + 1), kind.NbBits())
  }

  lemma ByteFrom(s: seq<bool>)
    requires |s| == 8
    ensures Value(s) < 256
  {
    WriteBack(s);
    Powers();
  }

  /** A phrase that fits is read back as it was written, whatever follows it. */
  lemma ReadPrinted(p: Phrase, rest: seq<bool>)
    requires Fits(p)
    ensures ReadOne(Print(p) + rest) == Got(p, Cost(p))
  {
    hide ToBits, Value, Low, Pow2;
    Powers();
    var s := Print(p) + rest;
    match p
    case Literal(b) =>
      assert s[..8] == ToBits(b, 8);
      ByteReadBack(b);
    case Ref(kind, dist, len) =>
      var n := kind.NbBits();
      assert s[..8] == ToBits(kind.Delimiter(), 8);
      assert s[8..16] == ToBits(len - 1, 8);
      assert s[16..n] == ToBits(dist - 1, kind.AddressBits());
      ByteReadBack(kind.Delimiter());
      ByteReadBack(len - 1);
      ReadBack(dist - 1, kind.AddressBits());
      LowSmall(dist - 1, kind.AddressBits());
  }

  // ----- The format in numbers -----

  /** The number written in the bits from `i` to `j`. */
  function Field(s: seq<bool>, i: nat, j: nat): nat
    requires i <= j <= |s|
  {
    Value(s[i..j])
  }

  /** A literal takes the 8 bits of its byte. */
  lemma LiteralFormat(b: byte)
    ensures Fits(Literal(b)) <==> b != 0xFE && b != 0xFF
    ensures var s := Print(Literal(b)); |s| == 8 && Field(s, 0, 8) == b
  {
    hide ToBits, Value;
    var s := ToBits(b, 8);
    assert s[0..8] == s;
    ByteReadBack(b);
  }

  /** A short reference takes 30 bits: 0xFE, the length less one in 8 and the distance less one
      in 14. */
  lemma ShortFormat(dist: nat, len: nat)
    ensures Fits(Ref(Short, dist, len)) <==> 1 <= dist <= 16384 && 1 <= len <= 256
    ensures Fits(Ref(Short, dist, len)) ==>
              var s := Print(Ref(Short, dist, len));
              |s| == 30 && Field(s, 0, 8) == 0xFE && Field(s, 8, 16) == len - 1 && Field(s, 16, 30) == dist - 1
  {
    hide ToBits, Value, Pow2;
    if Fits(Ref(Short, dist, len)) {
      ThreeFields(0xFE, len - 1, dist - 1, 14);
    }
  }

  /** A dynamic reference takes 37 bits: 0xFF, the length less one in 8 and the distance less one
      in 21. */
  lemma DynamicFormat(dist: nat, len: nat)
    ensures Fits(Ref(Dynamic, dist, len)) <==> 1 <= dist <= 2097152 && 1 <= len <= 256
    ensures Fits(Ref(Dynamic, dist, len)) ==>
              var s := Print(Ref(Dynamic, dist, len));
              |s| == 37 && Field(s, 0, 8) == 0xFF && Field(s, 8, 16) == len - 1 && Field(s, 16, 37) == dist - 1
  {
    hide ToBits, Value, Pow2;
    if Fits(Ref(Dynamic, dist, len)) {
      ThreeFields(0xFF, len - 1, dist - 1, 21);
    }
  }

  lemma ThreeFields(a: byte, b: byte, v: nat, n: nat)
    requires (n == 14 && v < 16384) || (n == 21 && v < 2097152)
    ensures var s := ToBits(a, 8) + ToBits(b, 8) + ToBits(v, n);
            |s| == 16 + n && Field(s, 0, 8) == a && Field(s, 8, 16) == b && Field(s, 16, 16 + n) == v
  {
    hide ToBits, Value, Pow2, Low;
    Powers();
    var s := ToBits(a, 8) + ToBits(b, 8) + ToBits(v, n);
    assert s[0..8] == ToBits(a, 8) && s[8..16] == ToBits(b, 8) && s[16..16 + n] == ToBits(v, n);
    ByteReadBack(a);
    ByteReadBack(b);
    ReadBack(v, n);
    LowSmall(v, n);
  }

  /** The phrases of a bit stream, or nothing if one is cut short. */
  function Parse(s: seq<bool>): Option<seq<Phrase>>
    decreases |s|
  {
    match ReadOne(s)
    case End => Some([])
    case Bad => None
    case Got(p, n) =>
      match Parse(s[n..])
      case None => None
      case Some(ps) => Some([p] + ps)
  }

  /** Parsing undoes printing, up to the padding of the last byte. */
  lemma {:induction false} ParsePrinted(ps: seq<Phrase>, pad: seq<bool>)
    requires AllFit(ps) && |pad| < 8
    ensures Parse(PrintAll(ps) + pad) == Some(ps)
  {
    hide *;
    if ps == [] {
      ParseNothing(pad);
    } else {
      FitRest(ps);
      var p, rest := ps[0], PrintAll(ps[1..]);
      ReadPrinted(p, rest + pad);
      ParsePrinted(ps[1..], pad);
      ParseNext(Print(p), rest + pad, p, ps[1..]);
      assert Print(p) + rest + pad == Print(p) + (rest + pad);
      assert [p] + ps[1..] == ps;
    }
  }

  lemma ParseNothing(pad: seq<bool>)
    requires |pad| < 8
    ensures AllFit([]) && Parse(PrintAll([]) + pad) == Some([])
  {
    PadEnds(pad);
    assert [] + pad == pad;
  }

  lemma FitRest(ps: seq<Phrase>)
    requires ps != [] && AllFit(ps)
    ensures Fits(ps[0]) && WellFormed(ps[0]) && AllFit(ps[1..]) && PrintAll(ps) == Print(ps[0]) + PrintAll(ps[1..])
  {
    hide Print;
  }

  lemma ParseNext(s: seq<bool>, rest: seq<bool>, p: Phrase, ps: seq<Phrase>)
    requires ReadOne(s + rest) == Got(p, |s|) && Parse(rest) == Some(ps)
    ensures Parse(s + rest) == Some([p] + ps)
  {
    hide ReadOne;
    assert (s + rest)[|s|..] == rest;
  }

  lemma PadEnds(pad: seq<bool>)
    requires |pad| < 8
    ensures ReadOne(pad) == End
  {
  }

  /** A phrase that was read fits its encoding, and that is what was read. */
  lemma PrintRead(s: seq<bool>)
    ensures var r := ReadOne(s); r.Got? ==> Fits(r.phrase) && Print(r.phrase) == s[..r.size]
  {
    hide ToBits, Value, Pow2, ReadRef, Print, Fits;
    if |s| >= 8 {
      ByteRead(s[..8]);
      var b := Value(s[..8]);
      if b == 0xFE {
        PrintReadRef(s, Short);
      } else if b == 0xFF {
        PrintReadRef(s, Dynamic);
      } else {
        LiteralIs(b);
      }
    }
  }

  lemma ByteRead(s: seq<bool>)
    requires |s| == 8
    ensures Value(s) < 256 && ToBits(Value(s), 8) == s
  {
    WriteBack(s);
    Powers();
  }

  lemma LiteralIs(b: byte)
    requires b != 0xFE && b != 0xFF
    ensures Fits(Literal(b)) && Print(Literal(b)) == ToBits(b, 8)
  {
  }

  lemma PrintReadRef(s: seq<bool>, kind: Kind)
    requires 8 <= |s| && s[..8] == ToBits(kind.Delimiter(), 8)
    ensures var r := ReadRef(s, kind); r.Got? ==> WellFormed(r.phrase) && Fits(r.phrase) && Print(r.phrase) == s[..r.size]
  {
    hide ToBits, Value, Pow2;
    var n := kind.NbBits();
    if n <= |s| {
      Powers();
      WriteBack(s[8..16]);
      WriteBack(s[16..n]);
      assert s[..8] + s[8..16] + s[16..n] == s[..n];
    }
  }

  /** The bits are those of the phrases and fewer than eight more. */
  ghost predicate Prints(ps: seq<Phrase>, s: seq<bool>)
  {
    AllFit(ps) && PrintAll(ps) <= s && |s| < |PrintAll(ps)| + 8
  }

  /** The bit streams that parse are exactly those that can be printed, up to padding; so a
      stream that breaks off inside a reference does not. */
  lemma ParseExact(s: seq<bool>, ps: seq<Phrase>)
    ensures Parse(s) == Some(ps) <==> Prints(ps, s)
  {
    hide Parse, PrintAll;
    if Parse(s) == Some(ps) {
      ParsedPrints(s, ps);
    }
    if Prints(ps, s) {
      var n := |PrintAll(ps)|;
      assert s == PrintAll(ps) + s[n..];
      ParsePrinted(ps, s[n..]);
    }
  }

  lemma {:induction false} ParsedPrints(s: seq<bool>, ps: seq<Phrase>)
    requires Parse(s) == Some(ps)
    ensures Prints(ps, s)
    decreases |s|
  {
    hide ReadOne, Print, Fits;
    var r := ReadOne(s);
    if r.End? {
      EndIsShort(s);
      assert PrintAll(ps) == [];
    } else {
      PrintRead(s);
      ParsedPrints(s[r.size..], ps[1..]);
      PrintsMore(s, r.phrase, ps[1..]);
    }
  }

  lemma EndIsShort(s: seq<bool>)
    requires ReadOne(s).End?
    ensures |s| < 8
  {
  }

  lemma PrintsMore(s: seq<bool>, p: Phrase, ps: seq<Phrase>)
    requires Fits(p) && Cost(p) <= |s| && Print(p) == s[..Cost(p)] && Prints(ps, s[Cost(p)..])
    ensures Prints([p] + ps, s)
  {
    hide Print;
    var all := [p] + ps;
    assert all[1..] == ps;
    assert s == Print(p) + s[Cost(p)..];
  }

  // ----- Meaning -----

  /** Appends `len` bytes, each copied from `dist` bytes back; the copy may overlap itself. */
  function Copy(src: seq<byte>, dist: nat, len: nat): (r: seq<byte>)
    requires 1 <= dist <= |src|
    ensures |r| == |src| + len && r[..|src|] == src
    decreases len
  {
    if len == 0 then src
    else Copy(src + [src[|src| - dist]], dist, len - 1)
  }

  /** What a phrase appends to the output, or nothing if it points nowhere. */
  function Apply(dict: seq<byte>, out: seq<byte>, p: Phrase): (r: Option<seq<byte>>)
    requires WellFormed(p)
    ensures r.Some? ==> |r.value| == |out| + Span(p) && r.value[..|out|] == out
  {
    match p
    case Literal(b) => Some(out + [b])
    case Ref(kind, dist, len) =>
      if dist <= |out| then Some(Copy(out, dist, len))
      else if kind.Short? then None
      else
        var start := |dict| - (dist - |out|);
        if start < 0 || start + len > |dict| then None else Some(out + dict[start..start + len])
  }

  ghost function Replay(dict: seq<byte>, out: seq<byte>, ps: seq<Phrase>): Option<seq<byte>>
    requires AllWellFormed(ps)
    decreases |ps|
  {
    if ps == [] then Some(out)
    else
      match Apply(dict, out, ps[0])
      case None => None
      case Some(out') => Replay(dict, out', ps[1..])
  }

  lemma {:induction false} ReplayConcat(dict: seq<byte>, out: seq<byte>, ps: seq<Phrase>, qs: seq<Phrase>)
    requires AllWellFormed(ps) && AllWellFormed(qs)
    ensures AllWellFormed(ps + qs)
    ensures Replay(dict, out, ps + qs) ==
            match Replay(dict, out, ps) { case None => None case Some(mid) => Replay(dict, mid, qs) }
    decreases |ps|
  {
    hide Apply, WellFormed;
    if ps == [] {
      assert ps + qs == qs;
    } else {
      assert (ps + qs)[1..] == ps[1..] + qs;
      if Apply(dict, out, ps[0]).Some? {
        ReplayConcat(dict, Apply(dict, out, ps[0]).value, ps[1..], qs);
      }
    }
  }

  /** The decoder: phrases take effect as they are read. */
  function Decode(s: seq<bool>, dict: seq<byte>, out: seq<byte>): Option<seq<byte>>
    decreases |s|
  {
    match ReadOne(s)
    case End => Some(out)
    case Bad => None
    case Got(p, n) =>
      match Apply(dict, out, p)
      case None => None
      case Some(out') => Decode(s[n..], dict, out')
  }

  /** Decoding is parsing followed by replaying. */
  lemma {:induction false} DecodeIsReplay(s: seq<bool>, dict: seq<byte>, out: seq<byte>)
    ensures Parse(s).Some? ==>
              AllWellFormed(Parse(s).value) && Decode(s, dict, out) == Replay(dict, out, Parse(s).value)
    ensures Parse(s).None? ==> Decode(s, dict, out).None?
    decreases |s|
  {
    hide ReadOne, Apply;
    var r := ReadOne(s);
    if r.Got? {
      ParseWellFormed(s[r.size..]);
      if Apply(dict, out, r.phrase).Some? {
        DecodeIsReplay(s[r.size..], dict, Apply(dict, out, r.phrase).value);
      }
    }
  }

  lemma {:induction false} ParseWellFormed(s: seq<bool>)
    ensures Parse(s).Some? ==> AllWellFormed(Parse(s).value)
    decreases |s|
  {
    var r := ReadOne(s);
    if r.Got? {
      ParseWellFormed(s[r.size..]);
    }
  }

  // ----- Copies inside a known text -----

  /** Copying reproduces a text that repeats itself at that distance. */
  lemma {:induction false} CopyRepeats(d: seq<byte>, i: nat, dist: nat, len: nat)
    requires 1 <= dist <= i && i + len <= |d|
    requires d[i - dist..i - dist + len] == d[i..i + len]
    ensures Copy(d[..i], dist, len) == d[..i + len]
    decreases len
  {
    if len > 0 {
      var at := i - dist;
      SameSlices(d, at, i, len);
      assert d[..i] + [d[i]] == d[..i + 1];
      assert at + 1 == i + 1 - dist;
      CopyRepeats(d, i + 1, dist, len - 1);
    }
  }

  lemma SameSlices<T>(d: seq<T>, i: nat, j: nat, n: nat)
    requires 0 < n && i + n <= |d| && j + n <= |d| && d[i..i + n] == d[j..j + n]
    ensures d[i] == d[j] && d[i + 1..i + n] == d[j + 1..j + n]
  {
    var a, b := d[i..i + n], d[j..j + n];
    assert d[i] == a[0] && d[j] == b[0] && d[i + 1..i + n] == a[1..] && d[j + 1..j + n] == b[1..];
  }
}
