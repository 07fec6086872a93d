/** The word recorded for each LMS-substring so that most comparisons need not read the text:
    its length, or, for short substrings of bytes, the bytes themselves. */
module Fingerprints {
  import opened LmsTypes

  /** A word read as a signed 32-bit number, and back. */
  function ToInt32(u: int): int
  {
    if u < 0x8000_0000 then u else u - 0x1_0000_0000
  }

  function ToUint32(n: int): int
  {
    if n >= 0 then n else n + 0x1_0000_0000
  }

  lemma WordFits(u: int)
    requires 0 <= u < 0x1_0000_0000
    ensures -0x8000_0000 <= ToInt32(u) < 0x8000_0000 && ToUint32(ToInt32(u)) == u
  {
  }

  /** The byte that stands for symbol `c`: one more, wrapping around. */
  function Bump(c: int): int
  {
    (c + 1) % 256
  }

  /** The symbols from `j` to `e` inclusive, the last one in the most significant byte. */
  ghost function Pack(t: seq<int>, j: nat, e: nat): int
    requires j <= e < |t|
    decreases e - j
  {
    if j == e then Bump(t[e]) else Pack(t, j + 1, e) * 256 + Bump(t[j])
  }

  /** What is recorded for the LMS-substring at `j`: 0 for the last one, the inverted packed
      bytes if there are at most four and they cannot be mistaken for a length, the length
      otherwise. */
  ghost function Code(t: seq<int>, j: nat, packed: bool): int
    requires j < |t|
  {
    var e := NextLms(t, j);
    if e == |t| then 0
    else if packed && e + 1 - j <= 4 && 0x1_0000_0000 - 1 - Pack(t, j, e) >= |t| then ToInt32(0x1_0000_0000 - 1 - Pack(t, j, e))
    else e + 1 - j
  }

  lemma {:induction false} PackRange(t: seq<int>, j: nat, e: nat)
    requires j <= e < |t| && Symbols(t, 256) && t[e] < 255
    ensures 1 <= Pack(t, j, e)
    ensures j == e ==> Pack(t, j, e) < 256
    ensures j < e ==> 256 <= Pack(t, j, e)
    ensures e - j <= 3 ==> Pack(t, j, e) < 0x1_0000_0000
    ensures e - j <= 2 ==> Pack(t, j, e) < 0x100_0000
    ensures e - j <= 1 ==> Pack(t, j, e) < 0x1_0000
    decreases e - j
  {
    if j < e {
      PackRange(t, j + 1, e);
    }
  }

  lemma PackDigits(t: seq<int>, j: nat, e: nat)
    requires j <= e < |t| && Symbols(t, 256) && t[e] < 255
    ensures t[j] == (Pack(t, j, e) + 255) % 256
    ensures j < e ==> Pack(t, j + 1, e) == Pack(t, j, e) / 256
  {
    if j < e {
      LastDigit(Pack(t, j + 1, e), Bump(t[j]));
    }
    Unbump(t[j], Pack(t, j, e));
  }

  lemma LastDigit(p: int, b: int)
    requires 0 <= b < 256
    ensures (p * 256 + b) / 256 == p && (p * 256 + b) % 256 == b
  {
  }

  lemma Unbump(c: int, p: int)
    requires 0 <= c < 256 && p % 256 == Bump(c)
    ensures c == (p + 255) % 256
  {
  }

  /** The packed bytes determine the substring, its length included. */
  lemma {:induction false} PackInjective(t: seq<int>, j: nat, e: nat, k: nat, f: nat)
    requires j <= e < |t| && k <= f < |t| && Symbols(t, 256) && t[e] < 255 && t[f] < 255
    requires Pack(t, j, e) == Pack(t, k, f)
    ensures e - j == f - k && t[j..e + 1] == t[k..f + 1]
    decreases e - j
  {
    PackRange(t, j, e);
    PackRange(t, k, f);
    assert t[j] == t[k] && (j < e ==> k < f && Pack(t, j + 1, e) == Pack(t, k + 1, f)) by {
      PackDigits(t, j, e);
      PackDigits(t, k, f);
    }
    if j < e {
      PackInjective(t, j + 1, e, k + 1, f);
    }
    assert t[j..e + 1] == [t[j]] + t[j + 1..e + 1];
    assert t[k..f + 1] == [t[k]] + t[k + 1..f + 1];
  }

  /** An S-position never carries the largest symbol. */
  lemma {:induction false} SNotMax(t: seq<int>, textMax: nat, i: nat)
    requires Symbols(t, textMax) && i < |t| && IsS(t, i)
    ensures t[i] < textMax - 1
    decreases |t| - i
  {
    if t[i] == t[i + 1] {
      SNotMax(t, textMax, i + 1);
    }
  }

  /** Packed codes are told apart from lengths by their size as unsigned words. */
  lemma CodeKinds(t: seq<int>, j: nat, packed: bool)
    requires IsLms(t, j) && |t| < 0x8000_0000 && (packed ==> Symbols(t, 256))
    ensures var e, n := NextLms(t, j), Code(t, j, packed);
            && (n == 0 <==> e == |t|)
            && (0 <= n < |t| ==> n == 0 || n == e + 1 - j)
            && (ToUint32(n) >= |t| ==> packed && e < |t| && t[e] < 255 && ToUint32(n) == 0x1_0000_0000 - 1 - Pack(t, j, e))
            && 0 <= ToUint32(n) && (ToUint32(n) < |t| ==> n == ToUint32(n)) && n != -1
  {
    var e := NextLms(t, j);
    if e < |t| && packed {
      SNotMax(t, 256, e);
      PackRange(t, j, e);
    }
  }

  /** Comparing codes, and the texts when the codes are lengths, decides equality of
      LMS-substrings. */
  lemma CodeFaithful(t: seq<int>, x: nat, y: nat, packed: bool)
    requires IsLms(t, x) && IsLms(t, y) && |t| < 0x8000_0000 && (packed ==> Symbols(t, 256))
    ensures var n := Code(t, x, packed);
            && (ToUint32(n) < |t| ==> 0 <= n && x + n <= |t|)
            && (ToUint32(n) < |t| && n == Code(t, y, packed) ==> y + n <= |t|)
            && (SubEq(t, x, y) <==>
                n == Code(t, y, packed) && (ToUint32(n) >= |t| || t[x..x + n] == t[y..y + n]))
  {
    hide Code, SubEq, ToUint32, Pack;
    CodeKinds(t, x, packed);
    CodeKinds(t, y, packed);
    var n := Code(t, x, packed);
    if SubEq(t, x, y) {
      SubEqCodes(t, x, y, packed);
      SubEqText(t, x, y);
    } else if n == Code(t, y, packed) && (ToUint32(n) >= |t| || t[x..x + n] == t[y..y + n]) {
      CodesSubEq(t, x, y, packed);
    }
  }

  lemma CodesSubEq(t: seq<int>, x: nat, y: nat, packed: bool)
    requires IsLms(t, x) && IsLms(t, y) && |t| < 0x8000_0000 && (packed ==> Symbols(t, 256))
    requires var n := Code(t, x, packed);
             && n == Code(t, y, packed)
             && (ToUint32(n) >= |t| || (0 <= n && x + n <= |t| && y + n <= |t| && t[x..x + n] == t[y..y + n]))
    ensures SubEq(t, x, y)
  {
    hide Code, ToUint32, Pack, IsLms, Symbols;
    CodeKinds(t, x, packed);
    CodeKinds(t, y, packed);
    var n, e, f := Code(t, x, packed), NextLms(t, x), NextLms(t, y);
    if ToUint32(n) >= |t| {
      PackInjective(t, x, e, y, f);
    } else if n == 0 {
      LastUnique(t, x, y);
    } else {
      assert x + n == e + 1 && y + n == f + 1;
    }
  }

  lemma SubEqText(t: seq<int>, x: nat, y: nat)
    requires x < |t| && y < |t| && SubEq(t, x, y)
    ensures var e, f := NextLms(t, x), NextLms(t, y);
            e - x == f - y && (x != y ==> e < |t| && f < |t| && t[x..e + 1] == t[y..f + 1])
  {
  }

  lemma SubEqCodes(t: seq<int>, x: nat, y: nat, packed: bool)
    requires x < |t| && y < |t| && SubEq(t, x, y)
    ensures Code(t, x, packed) == Code(t, y, packed)
  {
    hide Pack;
    if x != y {
      PackEqual(t, x, NextLms(t, x), y, NextLms(t, y));
    }
  }

  lemma {:induction false} PackEqual(t: seq<int>, j: nat, e: nat, k: nat, f: nat)
    requires j <= e < |t| && k <= f < |t| && e - j == f - k && t[j..e + 1] == t[k..f + 1]
    ensures Pack(t, j, e) == Pack(t, k, f)
    decreases e - j
  {
    assert t[j] == t[j..e + 1][0] == t[k..f + 1][0] == t[k];
    if j < e {
      assert t[j + 1..e + 1] == t[j..e + 1][1..] == t[k..f + 1][1..] == t[k + 1..f + 1];
      PackEqual(t, j + 1, e, k + 1, f);
    }
  }

  /** Only one LMS-substring runs into the sentinel. */
  lemma LastUnique(t: seq<int>, x: nat, y: nat)
    requires IsLms(t, x) && IsLms(t, y) && NextLms(t, x) == |t| == NextLms(t, y)
    ensures x == y
  {
  }
}
