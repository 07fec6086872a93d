/** The decompressor. */
module Decompressor {
  import opened Options
  import opened Bits
  import opened Phrases

  // ----- Header -----

  const VERSION := 1
  const HEADER_SIZE := 3

  /** Two bytes of version, most significant first, and the flag. */
  function Header(noCompression: bool): (h: seq<byte>)
    ensures |h| == 3
  {
    [0, 1, if noCompression then 1 else 0]
  }

  datatype HeaderInfo = HeaderInfo(version: int, noCompression: bool)

  function ReadHeader(data: seq<byte>): Option<HeaderInfo>
  {
    if |data| < 3 || data[2] > 1 then None
    else
      var high: int, low: int := data[0], data[1];
      Some(HeaderInfo(256 * high + low, data[2] == 1))
  }

  // ----- Dictionary -----

  /** The dictionary with the reserved bytes, appended if one is missing. */
  function Augmented(dict: seq<byte>): seq<byte>
  {
    if 0xFE in dict && 0xFF in dict then dict else dict + [0xFE, 0xFF]
  }

  method AugmentDict(dict: seq<byte>) returns (r: seq<byte>)
    ensures r == Augmented(dict)
    ensures dict <= r && (|r| == |dict| <==> 0xFE in dict && 0xFF in dict)
    ensures |r| != |dict| ==> |r| == |dict| + 2 && r[|dict|] == 0xFE && r[|dict| + 1] == 0xFF
  {
    var short, dynamic := false, false;
    for i := 0 to |dict|
      invariant short == (0xFE in dict[..i]) && dynamic == (0xFF in dict[..i])
      invariant !(short && dynamic)
    {
      var b := dict[i];
      assert dict[..i + 1] == dict[..i] + [b];
      if b == 0xFE {
        short := true;
      } else if b == 0xFF {
        dynamic := true;
      } else {
        continue;
      }
      if short && dynamic {
        assert dict[..i + 1] + dict[i + 1..] == dict;
        return dict;
      }
    }
    assert dict[..|dict|] == dict;
    return dict + [0xFE, 0xFF];
  }

  /** Augmenting gives both reserved bytes, keeps what was there and needs to be done only once.
      If one of the bytes is missing, both are appended. */
  lemma AugmentedComplete(dict: seq<byte>)
    ensures 0xFE in Augmented(dict) && 0xFF in Augmented(dict)
    ensures dict <= Augmented(dict) && Augmented(Augmented(dict)) == Augmented(dict)
    ensures |Augmented(dict)| == |dict| <==> 0xFE in dict && 0xFF in dict
    ensures 0xFE !in dict || 0xFF !in dict ==> Augmented(dict)[|dict|..] == [0xFE, 0xFF]
  {
    var a := dict + [0xFE, 0xFF];
    assert a[|dict|] == 0xFE && a[|dict| + 1] == 0xFF;
  }

  // ----- Decompress -----

  ghost function Decompressed(data: seq<byte>, dict: seq<byte>): Option<seq<byte>>
  {
    match ReadHeader(data)
    case None => None
    case Some(h) =>
      if h.version != VERSION then None
      else if h.noCompression then Some(data[3..])
      else Decode(Unpacked(data[3..]), Augmented(dict), [])
  }

  /** What is accepted starts with the version and a flag, and the flag tells what follows. */
  lemma AcceptedHeader(data: seq<byte>, dict: seq<byte>)
    ensures Decompressed(data, dict).Some? ==> |data| >= 3 && data[0] == 0 && data[1] == 1 && data[2] <= 1
    ensures [0, 1, 1] <= data ==> Decompressed(data, dict) == Some(data[3..])
    ensures [0, 1, 0] <= data ==> Decompressed(data, dict) == Decode(Unpacked(data[3..]), Augmented(dict), [])
  {
    hide Decode, Unpacked, Augmented;
  }

  /** The loop that copies byte by byte from `dist` bytes back. */
  method CopyBack(out0: seq<byte>, dist: nat, len: nat) returns (out: seq<byte>)
    requires 1 <= dist <= |out0|
    ensures out == Copy(out0, dist, len)
  {
    out := out0;
    for i := 0 to len
      invariant |out| == |out0| + i && Copy(out, dist, len - i) == Copy(out0, dist, len)
    {
      out := out + [out[|out| - dist]];
    }
  }

  /** The loop over the phrases behind the header. */
  method DecodePhrases(bits: seq<bool>, dict: seq<byte>) returns (r: Option<seq<byte>>)
    ensures r == Decode(bits, dict, [])
  {
    hide *;
    var s, out := bits, [];
    while |s| >= 8
      invariant Decode(s, dict, out) == Decode(bits, dict, [])
      decreases |s|
    {
      var next := ReadOne(s);
      ReadsOn(s);
      DecodeStep(s, dict, out);
      if next.Bad? {
        return None;
      }
      match next.phrase {
        case Literal(b) =>
          ApplyLiteral(dict, out, b);
          out := out + [b];
        case Ref(kind, dist, len) =>
          ApplyRef(dict, out, kind, dist, len);
          if dist <= |out| {
            out := CopyBack(out, dist, len);
          } else if kind.Short? {
            return None;
          } else {
            var start := |dict| - (dist - |out|);
            if start < 0 || start + len > |dict| {
              return None;
            }
            out := out + dict[start..start + len];
          }
      }
      s := s[next.size..];
    }
    PadEnds(s);
    DecodeStep(s, dict, out);
    return Some(out);
  }

  /** One round of the loop reads a phrase and applies it. */
  lemma DecodeStep(s: seq<bool>, dict: seq<byte>, out: seq<byte>)
    ensures var r := ReadOne(s);
            && (r.End? ==> Decode(s, dict, out) == Some(out))
            && (r.Bad? ==> Decode(s, dict, out) == None)
            && (r.Got? ==> var a := Apply(dict, out, r.phrase);
                           Decode(s, dict, out) == if a.None? then None else Decode(s[r.size..], dict, a.value))
  {
    hide ReadOne, Apply;
  }

  lemma ApplyLiteral(dict: seq<byte>, out: seq<byte>, b: byte)
    ensures WellFormed(Literal(b)) && Apply(dict, out, Literal(b)) == Some(out + [b])
  {
  }

  lemma ApplyRef(dict: seq<byte>, out: seq<byte>, kind: Kind, dist: nat, len: nat)
    requires WellFormed(Ref(kind, dist, len))
    ensures var start := |dict| - (dist - |out|);
            && 1 <= dist
            && Apply(dict, out, Ref(kind, dist, len)) ==
               if dist <= |out| then Some(Copy(out, dist, len))
               else if kind.Short? || start < 0 || start + len > |dict| then None
               else Some(out + dict[start..start + len])
  {
    hide Apply, Copy;
    if dist <= |out| {
      ApplyBack(dict, out, kind, dist, len);
    } else {
      ApplyDict(dict, out, kind, dist, len);
    }
  }

  lemma ApplyBack(dict: seq<byte>, out: seq<byte>, kind: Kind, dist: nat, len: nat)
    requires WellFormed(Ref(kind, dist, len)) && dist <= |out|
    ensures 1 <= dist && Apply(dict, out, Ref(kind, dist, len)) == Some(Copy(out, dist, len))
  {
    hide Copy;
  }

  lemma ApplyDict(dict: seq<byte>, out: seq<byte>, kind: Kind, dist: nat, len: nat)
    requires WellFormed(Ref(kind, dist, len)) && dist > |out|
    ensures var start := |dict| - (dist - |out|);
            Apply(dict, out, Ref(kind, dist, len)) ==
            if kind.Short? || start < 0 || start + len > |dict| then None else Some(out + dict[start..start + len])
  {
    hide Copy;
  }

  method Decompress(data: seq<byte>, dict0: seq<byte>) returns (r: Option<seq<byte>>)
    ensures r == Decompressed(data, dict0)
    ensures r.Some? ==> |data| >= 3 && data[0] == 0 && data[1] == 1 && data[2] <= 1
    ensures [0, 1, 1] <= data ==> r == Some(data[3..])
  {
    hide Decode, Unpacked, Augmented;
    AcceptedHeader(data, dict0);
    var header := ReadHeader(data);
    if header.None? || header.value.version != VERSION {
      return None;
    }
    if header.value.noCompression {
      return Some(data[3..]);
    }
    var dict := AugmentDict(dict0);
    r := DecodePhrases(Unpacked(data[3..]), dict);
  }

  lemma ReadsOn(s: seq<bool>)
    requires |s| >= 8
    ensures !ReadOne(s).End?
  {
  }

  // ----- How far the output can grow -----

  /** Thirty bits never stand for more than 256 bytes. */
  lemma ReadGrowth(s: seq<bool>)
    ensures ReadOne(s).Got? ==> 30 * Span(ReadOne(s).phrase) <= 256 * ReadOne(s).size
  {
    if |s| >= 16 {
      WriteBack(s[8..16]);
      Powers();
    }
  }

  lemma {:induction false} DecodeGrowth(s: seq<bool>, dict: seq<byte>, out: seq<byte>)
    requires Decode(s, dict, out).Some?
    ensures 30 * (|Decode(s, dict, out).value| - |out|) <= 256 * |s|
    decreases |s|
  {
    hide ReadOne, Apply;
    var next := ReadOne(s);
    if next.Got? {
      ReadGrowth(s);
      DecodeGrowth(s[next.size..], dict, Apply(dict, out, next.phrase).value);
    }
  }

  /** The output of an accepted stream that is not bypassed is at most 1024/15 times as long
      as what follows the header. */
  lemma GrowthBound(data: seq<byte>, dict: seq<byte>)
    requires Decompressed(data, dict).Some? && !ReadHeader(data).value.noCompression
    ensures 15 * |Decompressed(data, dict).value| <= 1024 * (|data| - 3)
  {
    DecodeGrowth(Unpacked(data[3..]), Augmented(dict), []);
  }
}
