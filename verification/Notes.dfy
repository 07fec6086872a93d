/** What is kept about each LMS-substring inside the array: the note for the substring at `j`
    is in cell `j/2`, below the cells that hold the sorted list. */
module Notes {
  import opened Suffixes
  import opened LmsTypes
  import opened Naming
  import opened Fingerprints

  /** The number of LMS positions. */
  ghost function NumLms(t: seq<int>): nat
  {
    |LmsFrom(t, 0)|
  }

  /** The LMS position whose note is in cell `p`, or -1. */
  ghost function Owner(t: seq<int>, p: nat): int
  {
    if IsLms(t, 2 * p) then 2 * p else if IsLms(t, 2 * p + 1) then 2 * p + 1 else -1
  }

  ghost function Note(t: seq<int>, v: seq<int>, p: nat): int
    requires |v| == |t|
  {
    if Owner(t, p) == -1 then 0 else v[Owner(t, p)]
  }

  /** The cells below the list hold the notes `v`. */
  ghost predicate HoldsNotes(t: seq<int>, sa: seq<int>, v: seq<int>)
    ensures HoldsNotes(t, sa, v) ==> |sa| == |v| == |t|
  {
    |sa| == |v| == |t| && forall p :: 0 <= p < |t| - NumLms(t) ==> sa[p] == Note(t, v, p)
  }

  /** At most every other position after the first starts an LMS-substring. */
  lemma {:induction false} LmsFromShort(t: seq<int>, i: nat)
    requires 1 <= i <= |t|
    ensures 2 * |LmsFrom(t, i)| <= |t| - i
    decreases |t| - i
  {
    if i < |t| {
      if IsLms(t, i) {
        assert i + 1 < |t| && !IsLms(t, i + 1);
        assert LmsFrom(t, i + 1) == LmsFrom(t, i + 2);
        LmsFromShort(t, i + 2);
      } else {
        LmsFromShort(t, i + 1);
      }
    }
  }

  /** The subproblem is less than half as long. */
  lemma LmsHalf(t: seq<int>)
    requires 0 < |t|
    ensures 2 * NumLms(t) <= |t| - 1
  {
    LmsEnds(t);
    LmsFromShort(t, 1);
  }

  /** Notes live below the list, and each LMS position owns its cell. */
  lemma CellOf(t: seq<int>, j: nat)
    requires IsLms(t, j)
    ensures j / 2 < |t| - NumLms(t) && Owner(t, j / 2) == j
  {
    LmsHalf(t);
    assert !IsLms(t, j - 1);
  }

  lemma WriteNote(t: seq<int>, sa: seq<int>, v: seq<int>, j: nat, n: int)
    requires HoldsNotes(t, sa, v) && IsLms(t, j)
    ensures j / 2 < |t| - NumLms(t) && HoldsNotes(t, sa[j / 2 := n], v[j := n])
    ensures sa[j / 2] == v[j] && sa[j / 2 := n][|t| - NumLms(t)..] == sa[|t| - NumLms(t)..]
  {
    CellOf(t, j);
    var k, sa', v' := |t| - NumLms(t), sa[j / 2 := n], v[j := n];
    forall p | 0 <= p < k ensures sa'[p] == Note(t, v', p) {
      assert sa[p] == Note(t, v, p);
    }
  }

  ghost function NoNotes(t: seq<int>): (v: seq<int>)
    ensures |v| == |t| && forall j :: 0 <= j < |t| ==> v[j] == 0
  {
    seq(|t|, _ => 0)
  }

  // ----- Codes -----

  /** The notes of the LMS positions after `i` are their codes. */
  ghost predicate Coded(t: seq<int>, v: seq<int>, packed: bool, i: int)
  {
    |v| == |t| && forall j :: IsLms(t, j) && i < j ==> v[j] == Code(t, j, packed)
  }

  /** The end that the backward scan remembers: one past the next LMS position, or 0. */
  ghost function EndAfter(t: seq<int>, i: nat): (e: nat)
    requires i <= |t|
    ensures e <= |t| && (e == 0 || i + 1 < e)
  {
    if i == |t| || NextLms(t, i) == |t| then 0 else NextLms(t, i) + 1
  }

  /** The packed bytes that the backward scan remembers. */
  ghost predicate Packing(t: seq<int>, packed: bool, i: nat, cx: int)
    requires i <= |t|
  {
    packed && EndAfter(t, i) != 0 ==> cx == Pack(t, i + 1, EndAfter(t, i) - 1) % 0x1_0000_0000
  }

  lemma PackStep(t: seq<int>, i: nat, e: nat, cx: int)
    requires i < e < |t| && cx == Pack(t, i + 1, e) % 0x1_0000_0000
    ensures (cx * 256 + Bump(t[i])) % 0x1_0000_0000 == Pack(t, i, e) % 0x1_0000_0000
  {
    var p, q := Pack(t, i + 1, e), Pack(t, i + 1, e) / 0x1_0000_0000;
    assert p == q * 0x1_0000_0000 + cx;
    assert Pack(t, i, e) == q * 256 * 0x1_0000_0000 + (cx * 256 + Bump(t[i]));
    ModShift(cx * 256 + Bump(t[i]), q * 256);
  }

  lemma ModShift(a: int, q: int)
    ensures (a + q * 0x1_0000_0000) % 0x1_0000_0000 == a % 0x1_0000_0000
  {
  }

  /** The backward scan carries the packed bytes from `i + 1` over to `i`. */
  lemma PackingStep(t: seq<int>, packed: bool, i: nat, cx: int)
    requires i < |t| && Packing(t, packed, i + 1, cx)
    ensures packed && EndAfter(t, i + 1) != 0 ==>
              (cx * 256 + Bump(t[i + 1])) % 0x1_0000_0000 == Pack(t, i + 1, EndAfter(t, i + 1) - 1) % 0x1_0000_0000
    ensures !IsLms(t, i + 1) ==> EndAfter(t, i) == EndAfter(t, i + 1)
    ensures IsLms(t, i + 1) ==> EndAfter(t, i) == i + 2 && Packing(t, packed, i, Bump(t[i + 1]))
  {
    if EndAfter(t, i + 1) != 0 {
      if packed {
        PackStep(t, i + 1, EndAfter(t, i + 1) - 1, cx);
      }
    }
    if packed && IsLms(t, i + 1) {
      assert Pack(t, i + 1, i + 1) == Bump(t[i + 1]);
      assert 0 <= Bump(t[i + 1]) < 0x1_0000_0000;
    }
  }

  /** The word the scan computes for the LMS position `j` is its code. */
  lemma CodeFound(t: seq<int>, packed: bool, j: nat, cx: int)
    requires IsLms(t, j) && (packed ==> Symbols(t, 256))
    requires packed && EndAfter(t, j) != 0 ==> cx == Pack(t, j, EndAfter(t, j) - 1) % 0x1_0000_0000
    ensures var end := EndAfter(t, j);
            Code(t, j, packed) ==
              if end == 0 then 0
              else if packed && end - j <= 4 && 0x1_0000_0000 - 1 - cx >= |t| then ToInt32(0x1_0000_0000 - 1 - cx)
              else end - j
  {
    var end := EndAfter(t, j);
    if end != 0 && packed {
      SNotMax(t, 256, end - 1);
      PackRange(t, j, end - 1);
    }
  }

  // ----- Names -----

  /** The first `a` positions of the sorted list `l` have their names as notes, the others
      still their codes. */
  ghost predicate Named(t: seq<int>, l: seq<int>, v: seq<int>, packed: bool, a: nat)
    requires forall c :: 0 <= c < |l| ==> 0 < l[c] < |t|
  {
    && |v| == |t| && a <= |l|
    && (forall c :: 0 <= c < a ==> v[l[c]] == Name(t, l, c))
    && (forall c :: a <= c < |l| ==> v[l[c]] == Code(t, l[c], packed))
  }

  lemma NamedStart(t: seq<int>, l: seq<int>, v: seq<int>, packed: bool)
    requires SortedSubs(t, l) && Coded(t, v, packed, 0)
    ensures Named(t, l, v, packed, 0)
  {
  }

  lemma NamedNext(t: seq<int>, l: seq<int>, v: seq<int>, packed: bool, a: nat)
    requires SortedSubs(t, l) && Named(t, l, v, packed, a) && a < |l|
    ensures Named(t, l, v[l[a] := Name(t, l, a)], packed, a + 1)
  {
    hide Name, Code, SubLess, IsLms;
    assert forall c :: 0 <= c < |l| && c != a ==> l[c] != l[a];
  }

  /** Comparing with the last position `l[c]` that got a new name decides the next one. */
  lemma NameNext(t: seq<int>, textMax: nat, l: seq<int>, c: nat, a: nat)
    requires Symbols(t, textMax) && SortedSubs(t, l) && c < a < |l| && Name(t, l, c) == Name(t, l, a - 1)
    ensures Name(t, l, a) == Name(t, l, a - 1) + (if SubEq(t, l[c], l[a]) then 0 else 1)
  {
    NameOrder(t, textMax, l, c, a);
    NameOrder(t, textMax, l, c, a - 1);
    NameOrder(t, textMax, l, a - 1, a);
  }

  // ----- The reduced text -----

  /** The names of the LMS positions `l`, counted from 0. */
  ghost function Reduced(v: seq<int>, l: seq<int>): (r: seq<int>)
    requires forall k :: 0 <= k < |l| ==> 0 <= l[k] < |v|
    ensures |r| == |l| && forall k :: 0 <= k < |l| ==> r[k] == v[l[k]] - 1
  {
    seq(|l|, k requires 0 <= k < |l| => v[l[k]] - 1)
  }

  lemma LmsInText(t: seq<int>, i: nat)
    ensures forall k :: 0 <= k < |LmsFrom(t, i)| ==> 0 < LmsFrom(t, i)[k] < |t| && IsLms(t, LmsFrom(t, i)[k])
  {
    var l := LmsFrom(t, i);
    forall k | 0 <= k < |l| ensures 0 < l[k] < |t| && IsLms(t, l[k]) {
      assert l[k] in l;
    }
  }

  /** The two positions that share a cell. */
  lemma CellLms(t: seq<int>, p: nat)
    ensures LmsFrom(t, 2 * p) == (if Owner(t, p) == -1 then [] else [Owner(t, p)]) + LmsFrom(t, 2 * p + 2)
  {
    assert LmsFrom(t, 2 * p + 1) == (if IsLms(t, 2 * p + 1) then [2 * p + 1] else []) + LmsFrom(t, 2 * p + 2);
    assert LmsFrom(t, 2 * p) == (if IsLms(t, 2 * p) then [2 * p] else []) + LmsFrom(t, 2 * p + 1);
    assert !(IsLms(t, 2 * p) && IsLms(t, 2 * p + 1));
  }

  /** The renaming is faithful, and its symbols are below the largest name. */
  lemma ReducedRenames(t: seq<int>, textMax: nat, l: seq<int>, v: seq<int>, packed: bool)
    requires Symbols(t, textMax) && SortedSubs(t, l) && Named(t, l, v, packed, |l|) && 0 < |l|
    ensures forall k :: 0 <= k < |LmsFrom(t, 0)| ==> 0 <= LmsFrom(t, 0)[k] < |v|
    ensures Renames(t, Reduced(v, LmsFrom(t, 0)))
    ensures Symbols(Reduced(v, LmsFrom(t, 0)), Name(t, l, |l| - 1))
  {
    hide Name, Code, SubLess, IsLms, Faithful, LmsFrom, SubEq, Renames;
    LmsInText(t, 0);
    var all := LmsFrom(t, 0);
    var r := Reduced(v, all);
    forall a | 0 <= a < |r| ensures 0 <= r[a] < Name(t, l, |l| - 1) {
      var i := IndexOf(t, l, all[a]);
      NameOrder(t, textMax, l, i, |l| - 1);
    }
    RenamesPairs(t, textMax, l, v, packed);
  }

  lemma IndexOf(t: seq<int>, l: seq<int>, j: int) returns (i: nat)
    requires AllLms(t, l) && IsLms(t, j)
    ensures i < |l| && l[i] == j
  {
    i :| i < |l| && l[i] == j;
  }

  lemma RenamesPairs(t: seq<int>, textMax: nat, l: seq<int>, v: seq<int>, packed: bool)
    requires Symbols(t, textMax) && SortedSubs(t, l) && Named(t, l, v, packed, |l|)
    ensures forall k :: 0 <= k < |LmsFrom(t, 0)| ==> 0 <= LmsFrom(t, 0)[k] < |v|
    ensures Renames(t, Reduced(v, LmsFrom(t, 0)))
  {
    hide Name, Code, SubLess, IsLms, Faithful, LmsFrom;
    LmsInText(t, 0);
    var all := LmsFrom(t, 0);
    var r := Reduced(v, all);
    forall a, b | 0 <= a < |r| && 0 <= b < |r| ensures Faithful(t, all[a], all[b], r[a], r[b]) {
      var i := IndexOf(t, l, all[a]);
      var j := IndexOf(t, l, all[b]);
      NamesFaithful(t, textMax, l, i, j);
    }
  }

  lemma NamesFaithful(t: seq<int>, textMax: nat, l: seq<int>, i: nat, j: nat)
    requires Symbols(t, textMax) && SortedSubs(t, l) && i < |l| && j < |l|
    ensures Faithful(t, l[i], l[j], Name(t, l, i) - 1, Name(t, l, j) - 1)
  {
    hide SubEq, Name, SubLess, Less, SortedSubs;
    if i <= j {
      NameOrder(t, textMax, l, i, j);
      if Name(t, l, i) < Name(t, l, j) {
        SubLessSound(t, textMax, l[i], l[j]);
      }
    } else {
      NameOrder(t, textMax, l, j, i);
      SubEqOrder(t, textMax, l[i], l[j]);
      SubEqOrder(t, textMax, l[j], l[i]);
    }
  }

  // ----- Sorted LMS suffixes -----

  /** `u` lists the LMS positions by their suffixes. */
  ghost predicate SortedLms(t: seq<int>, u: seq<int>)
    ensures SortedLms(t, u) ==> forall a :: 0 <= a < |u| ==> 0 < u[a] < |t|
  {
    AllLms(t, u) && forall a, b :: 0 <= a < b < |u| ==> Less(t, u[a], u[b])
  }

  ghost function Unmapped(l: seq<int>, s: seq<int>): (u: seq<int>)
    requires forall k :: 0 <= k < |s| ==> 0 <= s[k] < |l|
    ensures |u| == |s| && forall k :: 0 <= k < |s| ==> u[k] == l[s[k]]
  {
    seq(|s|, k requires 0 <= k < |s| => l[s[k]])
  }

  /** The suffix array of the reduced text, mapped back, sorts the LMS suffixes. */
  lemma UnmapSorts(t: seq<int>, r: seq<int>, s: seq<int>)
    requires Renames(t, r) && IsSuffixArray(r, s)
    ensures forall k :: 0 <= k < |s| ==> 0 <= s[k] < NumLms(t)
    ensures SortedLms(t, Unmapped(LmsFrom(t, 0), s))
  {
    hide LmsFrom, IsLms, Less, Faithful;
    var l := LmsFrom(t, 0);
    var u := Unmapped(l, s);
    LmsInText(t, 0);
    forall a, b | 0 <= a < b < |u| ensures u[a] != u[b] && Less(t, u[a], u[b]) {
      ReductionOrder(t, r, s[a], s[b]);
      LessTotal(t, u[a], u[b]);
    }
    forall j | IsLms(t, j) ensures j in u {
      LmsPositive(t, j);
      assert j in l;
      var k :| 0 <= k < |l| && l[k] == j;
      assert k in s;
      var a :| 0 <= a < |s| && s[a] == k;
      assert u[a] == j;
    }
  }

  /** When all names differ, the list sorted by substrings is sorted by suffixes. */
  lemma DistinctSorts(t: seq<int>, textMax: nat, l: seq<int>)
    requires Symbols(t, textMax) && SortedSubs(t, l) && 0 < |l| && Name(t, l, |l| - 1) == |l|
    ensures SortedLms(t, l)
  {
    hide Name, SubEq, SubLess, Less, IsLms;
    forall a, b | 0 <= a < b < |l| ensures Less(t, l[a], l[b]) {
      NamesTight(t, l, a, |l| - 1);
      NamesTight(t, l, b, |l| - 1);
      NamesFaithful(t, textMax, l, a, b);
    }
  }

  lemma {:induction false} NamesTight(t: seq<int>, l: seq<int>, a: nat, b: nat)
    requires a <= b < |l| && (forall c :: 0 <= c < |l| ==> 0 < l[c] < |t|) && Name(t, l, b) == b + 1
    ensures Name(t, l, a) == a + 1
    decreases b - a
  {
    if a < b {
      NamesTight(t, l, a, b - 1);
    }
  }

  // ----- Steps of the scans -----

  /** The list `l` is at the top of the array. */
  ghost predicate Listed(t: seq<int>, sa: seq<int>, l: seq<int>)
    ensures Listed(t, sa, l) ==> |sa| == |t| && |l| == NumLms(t) <= |t|
  {
    |sa| == |t| && |l| == NumLms(t) <= |t| && sa[|t| - |l|..] == l
  }

  lemma ListedAt(t: seq<int>, sa: seq<int>, l: seq<int>, a: nat)
    requires Listed(t, sa, l) && a < |l|
    ensures sa[|t| - |l| + a] == l[a]
  {
    assert sa[|t| - |l|..][a] == l[a];
  }

  /** One step of the scan that records the codes. */
  lemma LengthStep(t: seq<int>, textMax: nat, packed: bool, i: nat, c1: int, isTypeS: bool, cx: int)
    requires Symbols(t, textMax) && i < |t| && (packed ==> textMax == 256)
    requires c1 == (if i + 1 < |t| then t[i + 1] else 0) && isTypeS == (i + 1 < |t| && IsS(t, i + 1))
    requires Packing(t, packed, i + 1, cx)
    ensures var cx' := (cx * 256 + Bump(c1)) % 0x1_0000_0000; var end := EndAfter(t, i + 1);
            && (!IsLms(t, i + 1) ==> EndAfter(t, i) == end && Packing(t, packed, i, cx'))
            && (IsLms(t, i + 1) ==>
                  && EndAfter(t, i) == i + 2 && Packing(t, packed, i, Bump(c1))
                  && Code(t, i + 1, packed) ==
                       if end == 0 then 0
                       else if packed && end - (i + 1) <= 4 && 0x1_0000_0000 - 1 - cx' >= |t| then ToInt32(0x1_0000_0000 - 1 - cx')
                       else end - (i + 1))
  {
    PackingStep(t, packed, i, cx);
    if IsLms(t, i + 1) {
      CodeFound(t, packed, i + 1, (cx * 256 + Bump(c1)) % 0x1_0000_0000);
    }
  }

  lemma CodedStep(t: seq<int>, v: seq<int>, packed: bool, i: nat)
    requires Coded(t, v, packed, i + 1)
    ensures !IsLms(t, i + 1) ==> Coded(t, v, packed, i)
    ensures IsLms(t, i + 1) ==> Coded(t, v[i + 1 := Code(t, i + 1, packed)], packed, i)
  {
  }

  lemma CodedNone(t: seq<int>, packed: bool)
    ensures Coded(t, NoNotes(t), packed, |t|) && Packing(t, packed, |t|, 0)
  {
  }

  lemma AssignFirst(t: seq<int>, textMax: nat, l: seq<int>, v: seq<int>, packed: bool)
    requires Symbols(t, textMax) && SortedSubs(t, l) && Named(t, l, v, packed, 0) && 0 < |l|
    requires |t| < 0x8000_0000 && (packed ==> textMax == 256)
    ensures IsLms(t, l[0]) && v[l[0]] == Code(t, l[0], packed) != -1 && Name(t, l, 0) == 1
  {
    CodeKinds(t, l[0], packed);
  }

  /** Comparing the next code with that of the last new substring `l[c]`, and their texts
      where the codes are lengths, decides the next name. */
  lemma AssignStep(t: seq<int>, textMax: nat, l: seq<int>, v: seq<int>, packed: bool, c: nat, a: nat)
    requires Symbols(t, textMax) && SortedSubs(t, l) && Named(t, l, v, packed, a)
    requires |t| < 0x8000_0000 && (packed ==> textMax == 256)
    requires c < a < |l| && Name(t, l, c) == Name(t, l, a - 1)
    ensures IsLms(t, l[a]) && v[l[a]] == Code(t, l[a], packed)
    ensures var n := Code(t, l[c], packed);
            && (ToUint32(n) < |t| && n == Code(t, l[a], packed) ==> 0 <= n && l[c] + n <= |t| && l[a] + n <= |t|)
            && Name(t, l, a) == Name(t, l, a - 1) +
                 if n == Code(t, l[a], packed) && (ToUint32(n) >= |t| || t[l[c]..l[c] + n] == t[l[a]..l[a] + n])
                 then 0 else 1
  {
    hide SubEq, Code, SubLess, IsLms, ToUint32, Name;
    NameNext(t, textMax, l, c, a);
    CodeFaithful(t, l[c], l[a], packed);
  }

  ghost predicate Positive(t: seq<int>, v: seq<int>)
  {
    |v| == |t| && forall j :: IsLms(t, j) ==> v[j] >= 1
  }

  lemma NamedPositive(t: seq<int>, l: seq<int>, v: seq<int>, packed: bool)
    requires SortedSubs(t, l) && Named(t, l, v, packed, |l|)
    ensures Positive(t, v)
  {
    forall j | IsLms(t, j) ensures v[j] >= 1 {
      var i := IndexOf(t, l, j);
    }
  }

  lemma {:induction false} LmsFromFewer(t: seq<int>, i: nat)
    ensures |LmsFrom(t, i)| <= NumLms(t)
    decreases i
  {
    if i > 0 {
      LmsFromFewer(t, i - 1);
    }
  }

  /** The names of the LMS positions `l` are packed at the top, from `w` on. */
  ghost predicate Mapped(t: seq<int>, sa: seq<int>, v: seq<int>, l: seq<int>, w: int)
    ensures Mapped(t, sa, v, l, w) ==> |sa| == |v| == |t| && 0 <= w <= |t|
  {
    && HoldsNotes(t, sa, v) && Positive(t, v) && w == |t| - |l|
    && (forall k :: 0 <= k < |l| ==> 0 <= l[k] < |v|)
    && 0 <= |t| - NumLms(t) <= w && sa[w..] == Reduced(v, l)
  }

  lemma MapBegin(t: seq<int>, sa: seq<int>, v: seq<int>)
    requires HoldsNotes(t, sa, v) && Positive(t, v) && 0 < |t|
    ensures Mapped(t, sa, v, LmsFrom(t, 2 * (|t| / 2 + 1)), |t|)
  {
    LmsHalf(t);
    assert LmsFrom(t, 2 * (|t| / 2 + 1)) == [];
  }

  lemma MapStep(t: seq<int>, sa: seq<int>, v: seq<int>, i: nat, w: int)
    requires Mapped(t, sa, v, LmsFrom(t, 2 * (i + 1)), w) && i <= |t| / 2 < |t|
    ensures sa[i] > 0 ==> 0 < w && Mapped(t, sa[w - 1 := sa[i] - 1], v, LmsFrom(t, 2 * i), w - 1)
    ensures sa[i] <= 0 ==> Mapped(t, sa, v, LmsFrom(t, 2 * i), w)
  {
    hide *;
    LmsHalf(t);
    CellLms(t, i);
    LmsFromFewer(t, 2 * i);
    var l := LmsFrom(t, 2 * i + 2);
    assert 2 * (i + 1) == 2 * i + 2;
    if Owner(t, i) == -1 {
      MapEmpty(t, sa, v, l, i, w);
      assert [] + l == l;
    } else {
      MapWrite(t, sa, v, l, i, w);
    }
  }

  lemma MapEmpty(t: seq<int>, sa: seq<int>, v: seq<int>, l: seq<int>, i: nat, w: int)
    requires Mapped(t, sa, v, l, w) && i < |t| - NumLms(t) && Owner(t, i) == -1
    ensures sa[i] == 0
  {
  }

  lemma MapWrite(t: seq<int>, sa: seq<int>, v: seq<int>, l: seq<int>, i: nat, w: int)
    requires Mapped(t, sa, v, l, w) && i < |t| - NumLms(t) && Owner(t, i) != -1 && |l| < NumLms(t)
    ensures sa[i] > 0 && 0 < w && Mapped(t, sa[w - 1 := sa[i] - 1], v, [Owner(t, i)] + l, w - 1)
  {
    hide LmsFrom, IsS;
    NoteAt(t, sa, v, i);
    NotesAbove(t, sa, v, w - 1, sa[i] - 1);
    ReducedCons(v, Owner(t, i), l);
    var sa' := sa[w - 1 := sa[i] - 1];
    assert sa'[w - 1..] == [sa[i] - 1] + sa[w..];
  }

  lemma NoteAt(t: seq<int>, sa: seq<int>, v: seq<int>, i: nat)
    requires HoldsNotes(t, sa, v) && i < |t| - NumLms(t)
    ensures sa[i] == Note(t, v, i)
  {
  }

  lemma NotesAbove(t: seq<int>, sa: seq<int>, v: seq<int>, w: int, n: int)
    requires HoldsNotes(t, sa, v) && 0 <= w < |t| && |t| - NumLms(t) <= w
    ensures HoldsNotes(t, sa[w := n], v)
  {
  }

  lemma ReducedCons(v: seq<int>, j: int, l: seq<int>)
    requires 0 <= j < |v| && forall k :: 0 <= k < |l| ==> 0 <= l[k] < |v|
    ensures forall k :: 0 <= k < |[j] + l| ==> 0 <= ([j] + l)[k] < |v|
    ensures Reduced(v, [j] + l) == [v[j] - 1] + Reduced(v, l)
  {
  }

  // ----- Mapping back -----

  /** The suffix array `s` of the reduced text is at the bottom, and the LMS positions `l` are
      written at the top from the `j`-th on. */
  ghost predicate Unmapping(t: seq<int>, sa: seq<int>, s: seq<int>, l: seq<int>, j: int)
    ensures Unmapping(t, sa, s, l, j) ==> |sa| == |t| && 0 <= j <= NumLms(t) && 2 * NumLms(t) <= |t|
  {
    && |sa| == |t| && |s| == NumLms(t) && 2 * NumLms(t) <= |t| && j == NumLms(t) - |l| && 0 <= j
    && sa[..|s|] == s && sa[|t| - |l|..] == l
  }

  lemma UnmapPut(t: seq<int>, sa: seq<int>, s: seq<int>, l: seq<int>, j: int, k: int)
    requires Unmapping(t, sa, s, l, j) && 0 < j
    ensures Unmapping(t, sa[|t| - NumLms(t) + j - 1 := k], s, [k] + l, j - 1)
  {
    var c := |t| - NumLms(t) + j - 1;
    var sa' := sa[c := k];
    assert sa'[c..] == [k] + sa[c + 1..];
    assert sa'[..|s|] == sa[..|s|];
  }

  /** The first `i` entries of `s` have been replaced by the positions they stand for. */
  ghost predicate Applying(t: seq<int>, sa: seq<int>, s: seq<int>, i: nat)
    ensures Applying(t, sa, s, i) ==> |sa| == |t| && |s| == NumLms(t) <= |t|
  {
    |sa| == |t| && 2 * NumLms(t) <= |t| && AppliedTo(LmsFrom(t, 0), sa, s, i)
  }

  ghost predicate AppliedTo(l: seq<int>, sa: seq<int>, s: seq<int>, i: nat)
  {
    && |s| == |l| <= |sa| && i <= |l| && sa[|sa| - |l|..] == l
    && (forall k :: 0 <= k < |s| ==> 0 <= s[k] < |l|)
    && (forall k :: 0 <= k < i ==> sa[k] == l[s[k]])
    && (forall k :: i <= k < |s| ==> sa[k] == s[k])
  }

  lemma ApplyBegin(t: seq<int>, sa: seq<int>, s: seq<int>)
    requires Unmapping(t, sa, s, LmsFrom(t, 0), 0) && forall k :: 0 <= k < |s| ==> 0 <= s[k] < NumLms(t)
    ensures Applying(t, sa, s, 0)
  {
    assert forall k :: 0 <= k < |s| ==> sa[k] == sa[..|s|][k];
  }

  lemma ApplyStep(t: seq<int>, sa: seq<int>, s: seq<int>, i: nat)
    requires Applying(t, sa, s, i) && i < NumLms(t)
    ensures 0 <= sa[i] < NumLms(t)
    ensures Applying(t, sa[i := sa[|t| - NumLms(t) + sa[i]]], s, i + 1)
  {
    var l := LmsFrom(t, 0);
    var c := |t| - |l|;
    assert sa[c + sa[i]] == sa[c..][sa[i]];
    var sa' := sa[i := sa[c + sa[i]]];
    assert sa'[c..] == sa[c..];
  }

  lemma ApplyEnd(t: seq<int>, sa: seq<int>, s: seq<int>)
    requires Applying(t, sa, s, NumLms(t))
    ensures sa[..NumLms(t)] == Unmapped(LmsFrom(t, 0), s)
  {
  }
}
