/** Bit streams: numbers written most significant bit first, and bytes as eight bits. */
module Bits {
  type byte = b: int | 0 <= b < 256

  ghost function Pow2(n: nat): (p: nat)
    ensures p > 0
  {
    if n == 0 then 1 else 2 * Pow2(n - 1)
  }

  /** The low `n` bits of `v`, most significant first. */
  function ToBits(v: nat, n: nat): (s: seq<bool>)
    ensures |s| == n
    decreases n
  {
    if n == 0 then [] else ToBits(v / 2, n - 1) + [v % 2 == 1]
  }

  function Value(s: seq<bool>): nat
  {
    if s == [] then 0 else 2 * Value(s[..|s| - 1]) + (if s[|s| - 1] then 1 else 0)
  }

  /** What is left of `v` in `n` bits. */
  ghost function Low(v: nat, n: nat): (r: nat)
    ensures r < Pow2(n)
    decreases n
  {
    if n == 0 then 0 else 2 * Low(v / 2, n - 1) + v % 2
  }

  lemma {:induction false} LowSmall(v: nat, n: nat)
    requires v < Pow2(n)
    ensures Low(v, n) == v
    decreases n
  {
    if n > 0 {
      LowSmall(v / 2, n - 1);
    }
  }

  lemma {:induction false} ReadBack(v: nat, n: nat)
    ensures Value(ToBits(v, n)) == Low(v, n)
    decreases n
  {
    if n > 0 {
      ReadBack(v / 2, n - 1);
      var s := ToBits(v, n);
      assert s[..|s| - 1] == ToBits(v / 2, n - 1);
    }
  }

  lemma {:induction false} WriteBack(s: seq<bool>)
    ensures Value(s) < Pow2(|s|) && ToBits(Value(s), |s|) == s
  {
    if s != [] {
      var r := s[..|s| - 1];
      WriteBack(r);
      assert Value(s) / 2 == Value(r);
      assert s == r + [s[|s| - 1]];
    }
  }

  /** High bits that are not used are 0. */
  lemma {:induction false} TopZeros(v: nat, n: nat, k: nat)
    requires k <= n && v < Pow2(k)
    ensures ToBits(v, n) == Zeros(n - k) + ToBits(v, k)
    decreases n
  {
    if k > 0 {
      TopZeros(v / 2, n - 1, k - 1);
    } else if n > 0 {
      TopZeros(0, n - 1, 0);
    }
  }

  /** Numbers written one behind the other are one number. */
  lemma {:induction false} JoinBits(a: nat, k: nat, b: nat, j: nat)
    requires b < Pow2(j)
    ensures ToBits(a, k) + ToBits(b, j) == ToBits(a * Pow2(j) + b, k + j)
    decreases j
  {
    if j > 0 {
      hide Pow2;
      Doubling(a, j);
      JoinBits(a, k, b / 2, j - 1);
      OneBitMore(a * Pow2(j - 1) + b / 2, k + j, b % 2);
      OneBitMore(b / 2, j, b % 2);
      assert ToBits(a, k) + (ToBits(b / 2, j - 1) + [b % 2 == 1]) == ToBits(a, k) + ToBits(b / 2, j - 1) + [b % 2 == 1];
    } else {
      assert ToBits(a, k) + [] == ToBits(a, k);
    }
  }

  lemma Doubling(a: nat, j: nat)
    requires j > 0
    ensures Pow2(j) == 2 * Pow2(j - 1) && a * Pow2(j) == 2 * (a * Pow2(j - 1))
  {
  }

  lemma OneBitMore(v: nat, n: nat, bit: nat)
    requires n > 0 && bit < 2
    ensures ToBits(2 * v + bit, n) == ToBits(v, n - 1) + [bit == 1]
  {
  }

  lemma Powers()
    ensures Pow2(6) == 64 && Pow2(7) == 128 && Pow2(8) == 256 && Pow2(14) == 0x4000 && Pow2(21) == 0x20_0000
  {
    assert Pow2(4) == 16;
    assert Pow2(6) == 64;
    assert Pow2(8) == 256;
    assert Pow2(11) == 2048;
    assert Pow2(14) == 0x4000;
    assert Pow2(17) == 0x2_0000;
    assert Pow2(21) == 0x20_0000;
  }

  // ----- Bytes -----

  function Unpacked(bytes: seq<byte>): (s: seq<bool>)
    ensures |s| == 8 * |bytes|
  {
    if bytes == [] then [] else ToBits(bytes[0], 8) + Unpacked(bytes[1..])
  }

  /** The bytes of a bit stream, the last one filled up with zeros. */
  ghost function Packed(s: seq<bool>): (bytes: seq<byte>)
    ensures |bytes| == (|s| + 7) / 8
  {
    if s == [] then []
    else if |s| < 8 then [ByteOf(s + Zeros(8 - |s|))]
    else [ByteOf(s[..8])] + Packed(s[8..])
  }

  function ByteOf(s: seq<bool>): (b: byte)
    requires |s| == 8
    ensures ToBits(b, 8) == s
  {
    WriteBack(s);
    Powers();
    Value(s)
  }

  function Zeros(n: nat): (s: seq<bool>)
    ensures |s| == n && forall i :: 0 <= i < n ==> !s[i]
  {
    seq(n, _ => false)
  }

  /** The number of padding bits behind `n` bits. */
  function Padding(n: nat): (k: nat)
    ensures k < 8 && (n + k) % 8 == 0
  {
    (8 - n % 8) % 8
  }

  lemma {:induction false} UnpackedConcat(a: seq<byte>, b: seq<byte>)
    ensures Unpacked(a + b) == Unpacked(a) + Unpacked(b)
  {
    hide ToBits;
    if a == [] {
      assert a + b == b;
    } else {
      UnpackedConcat(a[1..], b);
      assert (a + b)[1..] == a[1..] + b;
      assert Unpacked(a + b) == ToBits(a[0], 8) + Unpacked(a[1..] + b);
      assert Unpacked(a) == ToBits(a[0], 8) + Unpacked(a[1..]);
    }
  }

  /** The bits of the first `n` bytes are the first `8 * n` bits. */
  lemma UnpackedSplit(a: seq<byte>, n: nat)
    requires n <= |a|
    ensures Unpacked(a[..n]) == Unpacked(a)[..8 * n] && Unpacked(a[n..]) == Unpacked(a)[8 * n..]
  {
    hide Unpacked, ToBits;
    UnpackedConcat(a[..n], a[n..]);
    assert a == a[..n] + a[n..];
  }

  /** The bits of the last byte come last. */
  lemma LastBits(a: seq<byte>)
    requires a != []
    ensures Unpacked(a) == Unpacked(a[..|a| - 1]) + ToBits(a[|a| - 1], 8)
  {
    hide Unpacked, ToBits;
    var n := |a| - 1;
    assert a == a[..n] + [a[n]];
    UnpackedConcat(a[..n], [a[n]]);
    UnpackedOne(a[n]);
  }

  lemma {:induction false} UnpackPacked(s: seq<bool>)
    ensures Unpacked(Packed(s)) == s + Zeros(Padding(|s|))
  {
    hide ToBits, Unpacked, Padding;
    if |s| < 8 {
      UnpackShort(s);
    } else {
      var b, rest := ByteOf(s[..8]), s[8..];
      UnpackPacked(rest);
      UnpackedOne(b);
      UnpackedConcat([b], Packed(rest));
      PaddingStep(|s|);
      JoinTail(s, 8, Zeros(Padding(|s|)));
    }
  }

  lemma UnpackShort(s: seq<bool>)
    requires |s| < 8
    ensures Unpacked(Packed(s)) == s + Zeros(Padding(|s|))
  {
    hide *;
    if s == [] {
      PackedNone();
    } else {
      PaddingShort(|s|);
      PackedShort(s);
      UnpackedOne(ByteOf(s + Zeros(8 - |s|)));
    }
  }

  lemma PackedNone()
    ensures Packed([]) == [] && Unpacked([]) == [] && Padding(0) == 0 && Zeros(0) == []
  {
  }

  lemma PackedShort(s: seq<bool>)
    requires 0 < |s| < 8
    ensures Packed(s) == [ByteOf(s + Zeros(8 - |s|))]
  {
    hide ByteOf, Zeros;
  }

  lemma PaddingShort(n: nat)
    requires 0 < n < 8
    ensures Padding(n) == 8 - n
  {
  }

  lemma PaddingRest(n: nat, r: nat)
    requires r < 8 && r <= n && (n - r) % 8 == 0
    ensures Padding(n) == if r == 0 then 0 else 8 - r
  {
  }

  lemma PaddingStep(n: nat)
    requires n >= 8
    ensures Padding(n) == Padding(n - 8)
  {
  }

  // ----- A bit writer -----

  /** The whole bytes of a bit sequence, and the bits left over. */
  ghost function Whole(s: seq<bool>): seq<byte>
  {
    Packed(s[..8 * (|s| / 8)])
  }

  ghost function Rest(s: seq<bool>): (r: seq<bool>)
    ensures |r| < 8
  {
    s[8 * (|s| / 8)..]
  }

  /** Whole bytes in front of a bit stream are packed on their own. */
  lemma {:induction false} PackedConcat(a: seq<bool>, b: seq<bool>)
    requires |a| % 8 == 0
    ensures Packed(a + b) == Packed(a) + Packed(b)
  {
    hide *;
    if a == [] {
      PackedNone();
      assert a + b == b;
    } else {
      var s := a + b;
      PackedConcat(a[8..], b);
      assert s[..8] == a[..8] && s[8..] == a[8..] + b;
      PackedStep(a);
      PackedStep(s);
    }
  }

  lemma PackedStep(s: seq<bool>)
    requires |s| >= 8
    ensures Packed(s) == [ByteOf(s[..8])] + Packed(s[8..])
  {
    hide ByteOf;
  }

  lemma PackedByte(s: seq<bool>)
    requires |s| == 8
    ensures Packed(s) == [ByteOf(s)]
  {
    hide ByteOf;
    assert s[..8] == s && s[8..] == [];
  }

  lemma WholeAndRest(s: seq<bool>)
    ensures var k := |s| - |Rest(s)|; k % 8 == 0 && s == s[..k] + Rest(s) && Whole(s) == Packed(s[..k])
  {
  }

  /** A bit sequence that splits into whole bytes and less than a byte does so in one way. */
  lemma WholeRest(a: seq<bool>, r: seq<bool>)
    requires |a| % 8 == 0 && |r| < 8
    ensures Whole(a + r) == Packed(a) && Rest(a + r) == r
  {
    hide Packed;
    assert 8 * (|a + r| / 8) == |a|;
    assert (a + r)[..|a|] == a && (a + r)[|a|..] == r;
  }

  /** One more bit either waits with the others or completes a byte. */
  lemma PutBit(s: seq<bool>, bit: bool)
    ensures var r := Rest(s) + [bit];
            if |r| < 8 then Whole(s + [bit]) == Whole(s) && Rest(s + [bit]) == r
            else Whole(s + [bit]) == Whole(s) + [ByteOf(r)] && Rest(s + [bit]) == []
  {
    hide Packed, Whole, Rest, ByteOf;
    WholeAndRest(s);
    var a, r := s[..|s| - |Rest(s)|], Rest(s) + [bit];
    assert s + [bit] == a + r;
    if |r| < 8 {
      WholeRest(a, r);
    } else {
      WholeRest(a + r, []);
      assert a + r + [] == a + r;
      PackedConcat(a, r);
      PackedByte(r);
    }
  }

  /** What `k` shifts to the right leave of a number. */
  function ShiftRight(v: nat, k: nat): nat
    decreases k
  {
    if k == 0 then v else ShiftRight(v / 2, k - 1)
  }

  lemma {:induction false} ShiftedBits(v: nat, n: nat, k: nat)
    requires k <= n
    ensures ToBits(ShiftRight(v, k), n - k) == ToBits(v, n)[..n - k]
    decreases k
  {
    if k > 0 {
      ShiftedBits(v / 2, n - 1, k - 1);
    } else {
      assert ToBits(v, n)[..n] == ToBits(v, n);
    }
  }

  // ----- Slices -----

  lemma JoinTail<T>(a: seq<T>, i: nat, b: seq<T>)
    requires i <= |a|
    ensures a[..i] + (a[i..] + b) == a + b
  {
  }

  lemma PrefixOfPrefix<T>(a: seq<T>, i: nat, j: nat)
    requires i <= j <= |a|
    ensures a[..j][..i] == a[..i] && a[..j][i..] == a[i..j]
  {
  }

  lemma TakeOfConcat<T>(a: seq<T>, b: seq<T>, n: nat, k: nat)
    requires k <= |b| && n == |a| + k
    ensures (a + b)[..n] == a + b[..k]
  {
  }

  lemma PrefixParts<T>(a: seq<T>, b: seq<T>, c: seq<T>, d: seq<T>, n: nat, k: nat)
    requires |a| == |c| && |b| == |d| && k <= |b| && n == |a| + k && (a + b)[..n] == (c + d)[..n]
    ensures a == c && b[..k] == d[..k]
  {
    TakeOfConcat(a, b, n, k);
    TakeOfConcat(c, d, n, k);
    var x, y := a + b[..k], c + d[..k];
    assert a == x[..|a|] && b[..k] == x[|a|..] && c == y[..|a|] && d[..k] == y[|a|..];
  }

  lemma UnpackedOne(b: byte)
    ensures Unpacked([b]) == ToBits(b, 8)
  {
    assert [b][1..] == [];
  }

  lemma {:induction false} UnpackedInjective(a: seq<byte>, b: seq<byte>)
    requires Unpacked(a) == Unpacked(b)
    ensures a == b
  {
    if a != [] {
      assert |b| == |a|;
      var x, y := ToBits(a[0], 8), ToBits(b[0], 8);
      assert x == Unpacked(a)[..8] == Unpacked(b)[..8] == y;
      ByteReadBack(a[0]);
      ByteReadBack(b[0]);
      assert Unpacked(a[1..]) == Unpacked(a)[8..] == Unpacked(b)[8..] == Unpacked(b[1..]);
      UnpackedInjective(a[1..], b[1..]);
      assert a == [a[0]] + a[1..] && b == [b[0]] + b[1..];
    }
  }

  lemma ByteReadBack(b: byte)
    ensures Value(ToBits(b, 8)) == b
  {
    Powers();
    ReadBack(b, 8);
    LowSmall(b, 8);
  }
}
