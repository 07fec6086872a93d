/** The passes between the two rounds of induced sorting, in place. */
module Reduce {
  import opened LmsTypes
  import opened Buckets
  import opened Slices
  import opened Frequencies
  import opened Seeds
  import opened Naming
  import opened Fingerprints
  import opened Notes
  import opened Expansion
  import opened Induce
  import ScanL
  import ScanS

  /** Records the code of each LMS-substring. */
  method Lengths(text: Slice, textMax: nat, sa: Slice, w: Scratch, packed: bool, ghost l: seq<int>,
                 ghost keep: set<Slice>)
    returns (ghost v: seq<int>)
    requires Ready(text, textMax, sa, w, keep) && (packed ==> textMax == 256)
    requires HoldsNotes(text.View(), sa.View(), NoNotes(text.View())) && Listed(text.View(), sa.View(), l)
    modifies sa.arr
    ensures Ready(text, textMax, sa, w, keep)
    ensures forall u :: u in keep ==> u.View() == old(u.View())
    ensures HoldsNotes(text.View(), sa.View(), v) && Listed(text.View(), sa.View(), l)
    ensures Coded(text.View(), v, packed, 0)
  {
    hide *;
    ghost var t := text.View();
    v := NoNotes(t);
    CodedNone(t, packed);
    EndsAtText(t);
    var end, cx := 0, 0;
    var c0, isTypeS := 0, false;
    for i := text.len downto 0
      invariant Ready(text, textMax, sa, w, keep)
      invariant forall u :: u in keep ==> u.View() == old(u.View())
      invariant c0 == (if i < text.len then t[i] else 0) && isTypeS == (i < text.len && IsS(t, i))
      invariant end == EndAfter(t, i) && Packing(t, packed, i, cx)
      invariant HoldsNotes(t, sa.View(), v) && Listed(t, sa.View(), l) && Coded(t, v, packed, i)
    {
      var c1 := c0;
      c0 := text.Get(i);
      TypeStep(t, textMax, i, c1, isTypeS);
      LengthStep(t, textMax, packed, i, c1, isTypeS, cx);
      CodedStep(t, v, packed, i);
      cx := (cx * 256 + Bump(c1)) % 0x1_0000_0000;
      if c0 < c1 {
        isTypeS := true;
      } else if c0 > c1 && isTypeS {
        isTypeS := false;
        var j := i + 1;
        var code;
        if end == 0 {
          code := 0;
        } else {
          code := end - j;
          if packed && code <= 32 / 8 && 0x1_0000_0000 - 1 - cx >= text.len {
            WordFits(0x1_0000_0000 - 1 - cx);
            code := ToInt32(0x1_0000_0000 - 1 - cx);
          }
        }
        WriteListed(t, sa.View(), v, j, code, l);
        v := v[j := code];
        SetCell(text, textMax, sa, w, j / 2, code, keep);
        end := j + 1;
        cx := Bump(c1);
      }
    }
  }

  lemma EndsAtText(t: seq<int>)
    ensures EndAfter(t, |t|) == 0
  {
  }

  lemma WriteListed(t: seq<int>, sa: seq<int>, v: seq<int>, j: nat, n: int, l: seq<int>)
    requires HoldsNotes(t, sa, v) && Listed(t, sa, l) && IsLms(t, j)
    ensures j < |t| && j / 2 < |t| && sa[j / 2] == v[j]
    ensures HoldsNotes(t, sa[j / 2 := n], v[j := n]) && Listed(t, sa[j / 2 := n], l)
  {
    WriteNote(t, sa, v, j, n);
  }

  /** Whether the texts of length `n` at `x` and `y` agree. */
  method SameText(text: Slice, textMax: nat, sa: Slice, w: Scratch, x: int, y: int, n: int, ghost keep: set<Slice>)
    returns (same: bool)
    requires Ready(text, textMax, sa, w, keep)
    requires 0 <= n && 0 <= x && 0 <= y && x + n <= text.len && y + n <= text.len
    ensures same <==> text.View()[x..x + n] == text.View()[y..y + n]
    ensures Ready(text, textMax, sa, w, keep)
  {
    ghost var t := text.View();
    for i := 0 to n
      invariant t[x..x + i] == t[y..y + i]
    {
      if text.Get(x + i) != text.Get(y + i) {
        assert t[x..x + n][i] != t[y..y + n][i];
        return false;
      }
      assert t[x..x + i + 1] == t[x..x + i] + [t[x + i]];
      assert t[y..y + i + 1] == t[y..y + i] + [t[y + i]];
    }
    return true;
  }

  /** The codes `m` at `x` and `n` at `y` stand for the same substring: packed codes if they are
      equal, lengths if the texts agree too. */
  ghost predicate SameSub(t: seq<int>, x: int, m: int, y: int, n: int)
    ensures SameSub(t, x, m, y, n) ==> n == m
  {
    && n == m
    && (ToUint32(n) < |t| ==>
          0 <= n && 0 <= x && 0 <= y && x + n <= |t| && y + n <= |t| && t[x..x + n] == t[y..y + n])
  }

  /** Comparing the lengths makes sense. */
  ghost predicate Comparable(t: seq<int>, x: int, y: int, n: int)
  {
    ToUint32(n) < |t| ==> 0 <= n && 0 <= x && 0 <= y && x + n <= |t| && y + n <= |t|
  }

  method SameCode(text: Slice, textMax: nat, sa: Slice, w: Scratch, x: int, m: int, y: int, n: int,
                  ghost keep: set<Slice>)
    returns (same: bool)
    requires Ready(text, textMax, sa, w, keep) && (n == m ==> Comparable(text.View(), x, y, n))
    ensures same == SameSub(text.View(), x, m, y, n)
    ensures Ready(text, textMax, sa, w, keep)
  {
    hide Ready;
    if n != m {
      return false;
    }
    if ToUint32(n) >= text.len {
      return true;
    }
    same := SameText(text, textMax, sa, w, x, y, n, keep);
  }

  /** The state of the loop: the `c`-th substring, at `lastPos`, was the last to get a new name,
      and `id` is that name. */
  ghost predicate NamedUpTo(t: seq<int>, l: seq<int>, packed: bool, a: nat, c: nat, lastPos: int, lastLen: int, id: int)
    requires a <= |l| && forall k :: 0 <= k < |l| ==> 0 < l[k] < |t|
  {
    && (a == 0 ==> id == 0 && lastLen == -1)
    && (0 < a ==> c < a && lastPos == l[c] && lastLen == Code(t, l[c], packed) && Name(t, l, c) == Name(t, l, a - 1) == id)
  }

  lemma AssignNext(t: seq<int>, textMax: nat, l: seq<int>, v: seq<int>, packed: bool, a: nat, c: nat,
                   lastPos: int, lastLen: int, id: int)
    requires Symbols(t, textMax) && SortedSubs(t, l) && a < |l| && Named(t, l, v, packed, a)
    requires |t| < 0x8000_0000 && (packed ==> textMax == 256)
    requires NamedUpTo(t, l, packed, a, c, lastPos, lastLen, id)
    ensures |v| == |t| && IsLms(t, l[a])
    ensures var j, n := l[a], v[l[a]];
            && (n == lastLen ==> Comparable(t, lastPos, j, n))
            && (if SameSub(t, lastPos, lastLen, j, n)
                then Name(t, l, a) == id && NamedUpTo(t, l, packed, a + 1, c, lastPos, lastLen, id)
                else Name(t, l, a) == id + 1 && NamedUpTo(t, l, packed, a + 1, a, j, n, id + 1))
  {
    hide Named, Code, Name, IsLms, SortedSubs, Symbols, ToUint32;
    if a == 0 {
      AssignFirst(t, textMax, l, v, packed);
    } else {
      AssignStep(t, textMax, l, v, packed, c, a);
    }
    NamedSize(t, l, v, packed, a);
  }

  lemma NamedSize(t: seq<int>, l: seq<int>, v: seq<int>, packed: bool, a: nat)
    requires (forall c :: 0 <= c < |l| ==> 0 < l[c] < |t|) && Named(t, l, v, packed, a)
    ensures |v| == |t|
  {
  }

  lemma NamingStarts(t: seq<int>, l: seq<int>, packed: bool)
    requires forall c :: 0 <= c < |l| ==> 0 < l[c] < |t|
    ensures NamedUpTo(t, l, packed, 0, 0, 0, -1, 0)
  {
  }

  lemma NamingEnds(t: seq<int>, l: seq<int>, packed: bool, c: nat, lastPos: int, lastLen: int, id: int)
    requires 0 < |l| && forall k :: 0 <= k < |l| ==> 0 < l[k] < |t|
    requires NamedUpTo(t, l, packed, |l|, c, lastPos, lastLen, id)
    ensures id == Name(t, l, |l| - 1)
  {
  }

  /** Replaces the codes by names. */
  method AssignIds(text: Slice, textMax: nat, sa: Slice, w: Scratch, packed: bool, numLms: nat,
                   ghost l: seq<int>, ghost v0: seq<int>, ghost keep: set<Slice>)
    returns (id: int, ghost v: seq<int>)
    requires Ready(text, textMax, sa, w, keep) && (packed ==> textMax == 256)
    requires HoldsNotes(text.View(), sa.View(), v0) && Listed(text.View(), sa.View(), l)
    requires SortedSubs(text.View(), l) && Coded(text.View(), v0, packed, 0) && 0 < numLms == |l|
    modifies sa.arr
    ensures Ready(text, textMax, sa, w, keep)
    ensures forall u :: u in keep ==> u.View() == old(u.View())
    ensures HoldsNotes(text.View(), sa.View(), v) && Listed(text.View(), sa.View(), l)
    ensures Named(text.View(), l, v, packed, |l|) && id == Name(text.View(), l, |l| - 1)
  {
    hide *;
    ghost var t := text.View();
    v := v0;
    NamedStart(t, l, v, packed);
    NamingStarts(t, l, packed);
    id := 0;
    var lastLen, lastPos := -1, 0;
    ghost var c := 0;
    for a := 0 to numLms
      invariant Ready(text, textMax, sa, w, keep)
      invariant forall u :: u in keep ==> u.View() == old(u.View())
      invariant HoldsNotes(t, sa.View(), v) && Listed(t, sa.View(), l) && Named(t, l, v, packed, a)
      invariant NamedUpTo(t, l, packed, a, c, lastPos, lastLen, id)
    {
      ListedAt(t, sa.View(), l, a);
      AssignNext(t, textMax, l, v, packed, a, c, lastPos, lastLen, id);
      var j := sa.Get(sa.len - numLms + a);
      assert j == l[a];
      ghost var name := Name(t, l, a);
      WriteListed(t, sa.View(), v, j, name, l);
      NamedNext(t, l, v, packed, a);
      var n := sa.Get(j / 2);
      assert n == v[j];
      var same := SameCode(text, textMax, sa, w, lastPos, lastLen, j, n, keep);
      if !same {
        id := id + 1;
        lastPos := j;
        lastLen := n;
        c := a;
      }
      assert id == name;
      SetCell(text, textMax, sa, w, j / 2, id, keep);
      v := v[j := name];
    }
    NamingEnds(t, l, packed, c, lastPos, lastLen, id);
  }

  /** Packs the names, counted from 0 and in text order, at the top: the reduced text. */
  method MapNames(text: Slice, textMax: nat, sa: Slice, w: Scratch, ghost v: seq<int>, ghost keep: set<Slice>)
    requires Ready(text, textMax, sa, w, keep)
    requires HoldsNotes(text.View(), sa.View(), v) && Positive(text.View(), v)
    modifies sa.arr
    ensures Ready(text, textMax, sa, w, keep)
    ensures forall u :: u in keep ==> u.View() == old(u.View())
    ensures Mapped(text.View(), sa.View(), v, LmsFrom(text.View(), 0), text.len - NumLms(text.View()))
  {
    hide *;
    ghost var t := text.View();
    MapBegin(t, sa.View(), v);
    var free := sa.len;
    for i := sa.len / 2 + 1 downto 0
      invariant Ready(text, textMax, sa, w, keep)
      invariant forall u :: u in keep ==> u.View() == old(u.View())
      invariant Mapped(t, sa.View(), v, LmsFrom(t, 2 * i), free)
    {
      MapStep(t, sa.View(), v, i, free);
      var j := sa.Get(i);
      if j > 0 {
        free := free - 1;
        SetCell(text, textMax, sa, w, free, j - 1, keep);
      }
    }
    MappedWidth(t, sa.View(), v, free);
  }

  lemma MappedWidth(t: seq<int>, sa: seq<int>, v: seq<int>, w: int)
    requires Mapped(t, sa, v, LmsFrom(t, 0), w)
    ensures w == |t| - NumLms(t)
  {
  }

  /** Turns the suffix array of the reduced text, at the bottom, into LMS positions. */
  method Unmap(text: Slice, textMax: nat, sa: Slice, w: Scratch, numLms: nat, ghost s: seq<int>, ghost keep: set<Slice>)
    requires Ready(text, textMax, sa, w, keep) && numLms == NumLms(text.View())
    requires |s| == numLms <= sa.len && sa.View()[..numLms] == s
    requires forall k :: 0 <= k < |s| ==> 0 <= s[k] < numLms
    modifies sa.arr
    ensures Ready(text, textMax, sa, w, keep)
    ensures forall u :: u in keep ==> u.View() == old(u.View())
    ensures |LmsFrom(text.View(), 0)| == numLms && sa.View()[..numLms] == Unmapped(LmsFrom(text.View(), 0), s)
  {
    hide *;
    ghost var t := text.View();
    ListStarts(text, textMax, sa, w, numLms, s, keep);
    ApplyBegin(t, sa.View(), s);
    for i := 0 to numLms
      invariant Ready(text, textMax, sa, w, keep)
      invariant forall u :: u in keep ==> u.View() == old(u.View())
      invariant Applying(t, sa.View(), s, i)
    {
      ApplyStep(t, sa.View(), s, i);
      SetCell(text, textMax, sa, w, i, sa.Get(sa.len - numLms + sa.Get(i)), keep);
    }
    ApplyEnd(t, sa.View(), s);
  }

  /** Lists the LMS positions in text order at the top. */
  method ListStarts(text: Slice, textMax: nat, sa: Slice, w: Scratch, numLms: nat, ghost s: seq<int>,
                    ghost keep: set<Slice>)
    requires Ready(text, textMax, sa, w, keep) && numLms == NumLms(text.View())
    requires |s| == numLms <= sa.len && sa.View()[..numLms] == s
    modifies sa.arr
    ensures Ready(text, textMax, sa, w, keep)
    ensures forall u :: u in keep ==> u.View() == old(u.View())
    ensures |LmsFrom(text.View(), 0)| == numLms && Unmapping(text.View(), sa.View(), s, LmsFrom(text.View(), 0), 0)
  {
    hide *;
    ghost var t := text.View();
    var j := numLms;
    StartsBegin(t, sa.View(), s);
    var c0, isTypeS := 0, false;
    for i := text.len downto 0
      invariant Ready(text, textMax, sa, w, keep)
      invariant forall u :: u in keep ==> u.View() == old(u.View())
      invariant c0 == (if i < text.len then t[i] else 0) && isTypeS == (i < text.len && IsS(t, i))
      invariant StartsFrom(t, sa.View(), s, i, j)
    {
      var c1 := c0;
      c0 := text.Get(i);
      StartsStep(t, textMax, sa.View(), s, i, c1, isTypeS, j);
      if c0 < c1 {
        isTypeS := true;
      } else if c0 > c1 && isTypeS {
        isTypeS := false;
        j := j - 1;
        SetCell(text, textMax, sa, w, sa.len - numLms + j, i + 1, keep);
      }
    }
    StartsAll(t, sa.View(), s, j);
  }

  /** The LMS positions behind `i` are listed, from the `j`-th on. */
  ghost predicate StartsFrom(t: seq<int>, sa: seq<int>, s: seq<int>, i: nat, j: int)
    ensures StartsFrom(t, sa, s, i, j) ==> |sa| == |t| && 0 <= j <= NumLms(t) <= |t|
  {
    Unmapping(t, sa, s, LmsFrom(t, i + 1), j)
  }

  lemma StartsBegin(t: seq<int>, sa: seq<int>, s: seq<int>)
    requires 0 < |t| == |sa| && |s| == NumLms(t) <= |sa| && sa[..|s|] == s
    ensures StartsFrom(t, sa, s, |t|, NumLms(t))
  {
    LmsHalf(t);
    LmsEnds(t);
    UnmapBegin(t, sa, s);
  }

  lemma StartsStep(t: seq<int>, textMax: nat, sa: seq<int>, s: seq<int>, i: nat, c1: int, isTypeS: bool, j: int)
    requires Symbols(t, textMax) && i < |t| && StartsFrom(t, sa, s, i + 1, j)
    requires c1 == (if i + 1 < |t| then t[i + 1] else 0) && isTypeS == (i + 1 < |t| && IsS(t, i + 1))
    ensures IsS(t, i) <==> t[i] < c1 || (t[i] == c1 && isTypeS)
    ensures if t[i] > c1 && isTypeS
            then 0 < j && StartsFrom(t, sa[|t| - NumLms(t) + j - 1 := i + 1], s, i, j - 1)
            else StartsFrom(t, sa, s, i, j)
  {
    hide Unmapping, IsS, IsLms, Symbols;
    TypeStep(t, textMax, i, c1, isTypeS);
    if t[i] > c1 && isTypeS {
      UnmapLeft(t, sa, s, i, j);
      UnmapPut(t, sa, s, LmsFrom(t, i + 2), j, i + 1);
    }
  }

  lemma StartsAll(t: seq<int>, sa: seq<int>, s: seq<int>, j: int)
    requires StartsFrom(t, sa, s, 0, j)
    ensures j == 0 && Unmapping(t, sa, s, LmsFrom(t, 0), 0) && |LmsFrom(t, 0)| == NumLms(t)
  {
    hide Unmapping;
    LmsEnds(t);
    UnmapAll(t, sa, s, j);
  }

  lemma UnmapBegin(t: seq<int>, sa: seq<int>, s: seq<int>)
    requires |sa| == |t| && |s| == NumLms(t) && 2 * NumLms(t) <= |t| && sa[..|s|] == s
    ensures Unmapping(t, sa, s, [], NumLms(t))
  {
  }

  lemma UnmapLeft(t: seq<int>, sa: seq<int>, s: seq<int>, i: nat, j: int)
    requires Unmapping(t, sa, s, LmsFrom(t, i + 2), j) && LmsFrom(t, i + 1) == [i + 1] + LmsFrom(t, i + 2)
    ensures 0 < j
  {
    LmsFromFewer(t, i + 1);
  }

  lemma UnmapAll(t: seq<int>, sa: seq<int>, s: seq<int>, j: int)
    requires Unmapping(t, sa, s, LmsFrom(t, 0), j)
    ensures j == 0 && |LmsFrom(t, 0)| == NumLms(t)
  {
  }

  /** Copies the sorted list from the top to the bottom. */
  method CopyDown(text: Slice, textMax: nat, sa: Slice, w: Scratch, numLms: nat, ghost l: seq<int>,
                  ghost keep: set<Slice>)
    requires Ready(text, textMax, sa, w, keep) && numLms == |l| && Listed(text.View(), sa.View(), l)
    modifies sa.arr
    ensures Ready(text, textMax, sa, w, keep)
    ensures forall u :: u in keep ==> u.View() == old(u.View())
    ensures numLms <= sa.len && sa.View()[..numLms] == l
  {
    hide *;
    ghost var t := text.View();
    LmsHalf(t);
    for i := 0 to numLms
      invariant Ready(text, textMax, sa, w, keep)
      invariant forall u :: u in keep ==> u.View() == old(u.View())
      invariant Listed(t, sa.View(), l) && sa.View()[..i] == l[..i]
    {
      CopyStep(t, sa.View(), l, i);
      SetCell(text, textMax, sa, w, i, sa.Get(sa.len - numLms + i), keep);
    }
    assert l[..numLms] == l;
  }

  lemma CopyStep(t: seq<int>, sa: seq<int>, l: seq<int>, i: nat)
    requires Listed(t, sa, l) && i < |l| && 2 * NumLms(t) < |t| && sa[..i] == l[..i]
    ensures var sa' := sa[i := sa[|t| - |l| + i]]; Listed(t, sa', l) && sa'[..i + 1] == l[..i + 1]
  {
    ListedAt(t, sa, l, i);
    var sa' := sa[i := l[i]];
    assert sa'[|t| - |l|..] == sa[|t| - |l|..];
    assert sa'[..i + 1] == sa[..i] + [l[i]];
  }

  /** Takes the next index from the right end of the bucket of `k`, without writing it yet. */
  method Reserve(text: Slice, textMax: nat, sa: Slice, w: Scratch, k: int, ghost x: Ctx, ghost s: Scan,
                 ghost keep: set<Slice>)
    returns (b: int)
    requires Ready(text, textMax, sa, w, keep) && About(x, text.View(), textMax)
    requires 0 <= k < |x.t| && |s.A| == |s.at| == |x.t| && |s.bk| == textMax && ScanS.Room(x, s, k)
    requires w.bucket.View() == s.bk
    modifies w.bucket.arr
    ensures Ready(text, textMax, sa, w, keep)
    ensures forall u :: u in keep ==> u.View() == old(u.View())
    ensures sa.View() == old(sa.View())
    ensures 0 <= x.t[k] < textMax && b == s.bk[x.t[k]] - 1 && w.bucket.View() == ScanS.Place(x, s, k).bk
  {
    hide *;
    PlaceBack(x, s, k);
    var c := text.Get(k);
    b := w.bucket.Get(c) - 1;
    SetBucket(text, textMax, sa, w, c, b, keep);
  }

  /** Spreads the sorted LMS suffixes from the bottom to the right ends of their buckets. */
  method Expand(text: Slice, textMax: nat, sa: Slice, w: Scratch, numLms: nat, ghost x: Ctx,
                ghost u: seq<int>, ghost keep: set<Slice>)
    returns (ghost s: Scan)
    requires Ready(text, textMax, sa, w, keep) && About(x, text.View(), textMax)
    requires SortedLms(x.t, u) && x.rk == Ranks(x.t, u) && x.from == 0
    requires 0 < numLms == |u| <= sa.len && sa.View()[..numLms] == u
    modifies sa.arr, w.bucket.arr, w.FreqArrays()
    ensures Ready(text, textMax, sa, w, keep)
    ensures forall u :: u in keep ==> u.View() == old(u.View())
    ensures ScanL.Seeded(x, s) && s.bk == LStarts(x) && Holds(sa.View(), s.A)
  {
    hide *;
    Backs(text, textMax, sa, w, x, keep);
    ExpandBegin(x, u, sa.View());
    s := Scan(Nowhere(|x.t|), Nowhere(|x.t|), SEnds(x));
    var a := numLms - 1;
    assert sa.View()[a] == sa.View()[..numLms][a] == u[a];
    var saX := sa.Get(a);
    var b := Reserve(text, textMax, sa, w, saX, x, s, keep);
    s := ScanS.Place(x, s, saX);
    for i := sa.len downto 0
      invariant Ready(text, textMax, sa, w, keep)
      invariant forall u :: u in keep ==> u.View() == old(u.View())
      invariant Expanding(x, s, u, sa.View(), i, a, b) && w.bucket.View() == s.bk && saX == u[a]
    {
      if i != b {
        ExpandSkip(x, s, u, sa.View(), i, a, b);
        SetCell(text, textMax, sa, w, i, 0, keep);
        continue;
      }
      if a > 0 {
        ExpandNext(x, s, u, sa.View(), i, a);
        SetCell(text, textMax, sa, w, i, saX, keep);
        a := a - 1;
        saX := sa.Get(a);
        b := Reserve(text, textMax, sa, w, saX, x, s, keep);
        s := ScanS.Place(x, s, saX);
      } else {
        ExpandLast(x, s, u, sa.View(), i);
        SetCell(text, textMax, sa, w, i, saX, keep);
      }
    }
    ExpandDone(x, s, u, sa.View(), a, b);
    s := s.(bk := LStarts(x));
  }
}
