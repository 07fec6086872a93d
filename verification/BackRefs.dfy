/** Choosing back-references: what the compressor looks for at a position, found through the
    index and, as a reference, by trying everything. */
module BackRefs {
  import opened Bits
  import opened Phrases
  import opened Suffixes
  import opened Lookup

  // ----- Trying everything -----

  datatype Match = Match(index: int, length: int)

  /** Among the first `n` positions, the occurrence of `s[..k]` with the smallest suffix. */
  ghost function FirstMatch(d: seq<byte>, s: seq<byte>, k: nat, lo: int, hi: int, n: nat): (r: int)
    requires k <= |s| && n <= |d|
    ensures r == -1 ==> forall q :: 0 <= q < n ==> !Occurs(d, s, k, lo, hi, q)
    ensures r != -1 ==>
              && 0 <= r < n && Occurs(d, s, k, lo, hi, r)
              && forall q :: 0 <= q < n && q != r && Occurs(d, s, k, lo, hi, q) ==> Less(d, r, q)
  {
    if n == 0 then -1
    else
      var r := FirstMatch(d, s, k, lo, hi, n - 1);
      if !Occurs(d, s, k, lo, hi, n - 1) then r
      else if r == -1 || Less(d, n - 1, r) then SmallerStill(d, n - 1, r); n - 1
      else LessTotal(d, n - 1, r); r
  }

  lemma SmallerStill(d: seq<int>, p: nat, r: int)
    requires p < |d|
    ensures 0 <= r <= |d| && Less(d, p, r) ==> forall q: nat :: q <= |d| && Less(d, r, q) ==> Less(d, p, q)
  {
    forall q: nat | 0 <= r <= |d| && q <= |d| && Less(d, p, r) && Less(d, r, q) ensures Less(d, p, q) {
      LessTransitive(d, p, r, q);
    }
  }

  /** The longest match, tried from the longest length down. */
  ghost function LongestMatch(d: seq<byte>, s: seq<byte>, minEnd: nat, maxEnd: nat, lo: int, hi: int): (m: Match)
    requires minEnd <= maxEnd <= |s|
    ensures IsLongest(d, s, minEnd, maxEnd, lo, hi, m.index, m.length)
    decreases maxEnd
  {
    var first := FirstMatch(d, s, maxEnd, lo, hi, |d|);
    assert first == -1 ==> forall q :: !Occurs(d, s, maxEnd, lo, hi, q);
    if first != -1 then Match(first, maxEnd)
    else if maxEnd == minEnd then Match(-1, -1)
    else LongestMatch(d, s, minEnd, maxEnd - 1, lo, hi)
  }

  // ----- References -----

  /** `length` bytes at `address`, counted from the start of the dictionary for dynamic
      references and from the start of the data for short ones. */
  datatype Backref = Backref(kind: Kind, address: int, length: int, dictLen: nat)

  /** The bits saved over literals; a reference that was not found saves less than anything. */
  function Savings(b: Backref): int
  {
    if b.length == -1 then -0x8000_0000_0000_0000 else 8 * b.length - b.kind.NbBits()
  }

  /** A reference that stands for `len` bytes of `d` at `i`: a repetition within its kind's
      reach, or, for dynamic references, a part of the dictionary. */
  ghost predicate IsRef(dict: seq<byte>, d: seq<byte>, i: nat, kind: Kind, dist: int, len: int)
  {
    && 1 <= dist && 1 <= len <= 256 && i + len <= |d|
    && (if dist <= i
        then dist <= kind.MaxAddress() && d[i - dist..i - dist + len] == d[i..i + len]
        else var p := |dict| - (dist - i);
             kind.Dynamic? && 0 <= p && p + len <= |dict| && dict[p..p + len] == d[i..i + len])
  }

  function Max(a: int, b: int): int
  {
    if a > b then a else b
  }

  function MaxLength(d: seq<byte>, i: nat): (n: nat)
    requires i < |d|
  {
    if i + 256 > |d| then |d| - i else 256
  }

  /** What the search for one kind of reference must find. */
  ghost function FindRef(dict: seq<byte>, d: seq<byte>, i: nat, kind: Kind, minLength: int): Match
    requires i < |d| && (minLength == -1 || minLength >= 1)
  {
    var min := if minLength == -1 then kind.NbBytes() else minLength;
    var max := MaxLength(d, i);
    if i + min > |d| || min > max then Match(-1, -1)
    else
      var s := d[i..i + max];
      var m := LongestMatch(d, s, min, max, Max(0, i - kind.MaxAddress()), i);
      var here := if kind.Dynamic? then Match(m.index + |dict|, m.length) else m;
      if m.length < max && kind.Dynamic?
      then
        var there := LongestMatch(dict, s, min, max, 0, |dict|);
        if there.length > m.length then there else here
      else here
  }

  method FindBackRef(d: seq<byte>, i: nat, kind: Kind, minLength: int, dataIndex: Index, dictIndex: Index)
    returns (addr: int, length: int)
    requires i < |d| && (minLength == -1 || minLength >= 1)
    requires dataIndex.Valid() && dataIndex.data == d && dictIndex.Valid()
    ensures Match(addr, length) == FindRef(dictIndex.data, d, i, kind, minLength)
  {
    hide IsLongest, Less, LongestMatch, Index.Valid;
    var dict := dictIndex.data;
    var min := if minLength == -1 then kind.NbBytes() else minLength;
    if i + min > |d| {
      return -1, -1;
    }
    var windowStart := Max(0, i - kind.MaxAddress());
    var max := 256;
    if i + max > |d| {
      max := |d| - i;
    }
    if min > max {
      return -1, -1;
    }
    var s := d[i..i + max];
    addr, length := LookupLongest(dataIndex, s, min, max, windowStart, i);
    ghost var m := LongestMatch(d, s, min, max, windowStart, i);
    LongestUnique(d, s, min, max, windowStart, i, addr, length, m.index, m.length);
    if kind.Dynamic? {
      addr := addr + |dict|;
    }
    if length < max && kind.Dynamic? {
      var dAddr, dLength := LookupLongest(dictIndex, s, min, max, 0, |dict|);
      ghost var dm := LongestMatch(dict, s, min, max, 0, |dict|);
      LongestUnique(dict, s, min, max, 0, |dict|, dAddr, dLength, dm.index, dm.length);
      if dLength > length {
        addr, length := dAddr, dLength;
      }
    }
  }

  /** An occurrence of the text at `i` elsewhere, in terms of slices. */
  lemma OccursIsEqual(e: seq<byte>, d: seq<byte>, i: nat, max: nat, k: nat, lo: int, hi: int, p: int)
    requires k <= max && i + max <= |d|
    ensures Occurs(e, d[i..i + max], k, lo, hi, p) <==>
            lo <= p < hi && 0 <= p < |e| && p + k <= |e| && e[p..p + k] == d[i..i + k]
  {
    assert d[i..i + max][..k] == d[i..i + k];
  }

  /** What is found is a reference. */
  lemma FindRefSound(dict: seq<byte>, d: seq<byte>, i: nat, kind: Kind, minLength: int)
    requires i < |d| && (minLength == -1 || minLength >= 1)
    ensures var m := FindRef(dict, d, i, kind, minLength);
            m.length != -1 ==>
              && m.length >= (if minLength == -1 then kind.NbBytes() else minLength)
              && IsRef(dict, d, i, kind, i + (if kind.Dynamic? then |dict| else 0) - m.index, m.length)
  {
    hide LongestMatch, IsRef;
    var min := if minLength == -1 then kind.NbBytes() else minLength;
    var max := MaxLength(d, i);
    if i + min <= |d| && min <= max {
      HereSound(dict, d, i, kind, min);
      ThereSound(dict, d, i, min);
    }
  }

  lemma HereSound(dict: seq<byte>, d: seq<byte>, i: nat, kind: Kind, min: nat)
    requires i < |d| && 1 <= min <= MaxLength(d, i)
    ensures var max := MaxLength(d, i);
            var m := LongestMatch(d, d[i..i + max], min, max, Max(0, i - kind.MaxAddress()), i);
            m.length != -1 ==> m.length >= min && IsRef(dict, d, i, kind, i - m.index, m.length)
  {
    hide LongestMatch, Less, Occurs;
    var max := MaxLength(d, i);
    var lo := Max(0, i - kind.MaxAddress());
    var m := LongestMatch(d, d[i..i + max], min, max, lo, i);
    if m.length != -1 {
      OccursIsEqual(d, d, i, max, m.length, lo, i, m.index);
    }
  }

  lemma ThereSound(dict: seq<byte>, d: seq<byte>, i: nat, min: nat)
    requires i < |d| && 1 <= min <= MaxLength(d, i)
    ensures var max := MaxLength(d, i);
            var m := LongestMatch(dict, d[i..i + max], min, max, 0, |dict|);
            m.length != -1 ==> m.length >= min && IsRef(dict, d, i, Dynamic, i + |dict| - m.index, m.length)
  {
    hide LongestMatch, Less, Occurs;
    var max := MaxLength(d, i);
    var m := LongestMatch(dict, d[i..i + max], min, max, 0, |dict|);
    if m.length != -1 {
      OccursIsEqual(dict, d, i, max, m.length, 0, |dict|, m.index);
    }
  }

  /** No reference of the kind that is long enough is longer than what is found. */
  lemma FindRefComplete(dict: seq<byte>, d: seq<byte>, i: nat, kind: Kind, minLength: int, dist: int, len: int)
    requires i < |d| && (minLength == -1 || minLength >= 1) && IsRef(dict, d, i, kind, dist, len)
    requires len >= (if minLength == -1 then kind.NbBytes() else minLength)
    ensures FindRef(dict, d, i, kind, minLength).length >= len
  {
    hide LongestMatch, Less, Occurs;
    var min := if minLength == -1 then kind.NbBytes() else minLength;
    var max := MaxLength(d, i);
    var s, lo := d[i..i + max], Max(0, i - kind.MaxAddress());
    var m := LongestMatch(d, s, min, max, lo, i);
    var dm := LongestMatch(dict, s, min, max, 0, |dict|);
    if dist <= i {
      OccursIsEqual(d, d, i, max, len, lo, i, i - dist);
      LongestAtLeast(d, s, min, max, lo, i, m, i - dist, len);
    } else {
      var p := |dict| - (dist - i);
      OccursIsEqual(dict, d, i, max, len, 0, |dict|, p);
      LongestAtLeast(dict, s, min, max, 0, |dict|, dm, p, len);
    }
  }

  /** Of a match in the data and one as long in the dictionary, the former is taken. */
  lemma WindowWins(dict: seq<byte>, d: seq<byte>, i: nat, minLength: int, dist: int)
    requires i < |d| && (minLength == -1 || minLength >= 1)
    requires var m := FindRef(dict, d, i, Dynamic, minLength);
             m.length != -1 && IsRef(dict, d, i, Dynamic, dist, m.length) && dist <= i
    ensures |dict| <= FindRef(dict, d, i, Dynamic, minLength).index < |dict| + i
  {
    hide LongestMatch, Less, Occurs;
    var r := FindRef(dict, d, i, Dynamic, minLength);
    var min := if minLength == -1 then Dynamic.NbBytes() else minLength;
    var max := MaxLength(d, i);
    var s, lo := d[i..i + max], Max(0, i - Dynamic.MaxAddress());
    var m := LongestMatch(d, s, min, max, lo, i);
    FindRefSound(dict, d, i, Dynamic, minLength);
    OccursIsEqual(d, d, i, max, r.length, lo, i, i - dist);
    LongestAtLeast(d, s, min, max, lo, i, m, i - dist, r.length);
    MatchInWindow(d, s, min, max, lo, i, m);
  }

  lemma MatchInWindow(d: seq<byte>, s: seq<byte>, min: nat, max: nat, lo: int, hi: int, m: Match)
    requires min <= max <= |s| && IsLongest(d, s, min, max, lo, hi, m.index, m.length) && m.length != -1
    ensures lo <= m.index < hi && 0 <= m.index
  {
  }

  lemma LongestAtLeast(d: seq<byte>, s: seq<byte>, min: nat, max: nat, lo: int, hi: int, m: Match, p: int, k: nat)
    requires min <= k <= max <= |s| && IsLongest(d, s, min, max, lo, hi, m.index, m.length)
    requires Occurs(d, s, k, lo, hi, p)
    ensures m.length >= k
  {
    if m.length == -1 {
      OccursShorter(d, s, min, k, lo, hi, p);
    }
  }

  // ----- The best reference -----

  function MinLength(b: byte): int
  {
    if CanEncode(b) then -1 else 1
  }

  ghost function FoundRef(dict: seq<byte>, d: seq<byte>, at: nat, kind: Kind): Backref
    requires at < |d|
  {
    var m := FindRef(dict, d, at, kind, MinLength(d[at]));
    Backref(kind, m.index, m.length, if kind.Dynamic? then |dict| else 0)
  }

  /** The reference used at a position: the short one if it saves strictly more. */
  ghost function BestRef(dict: seq<byte>, d: seq<byte>, at: nat): Backref
    requires at < |d|
  {
    var short, dynamic := FoundRef(dict, d, at, Short), FoundRef(dict, d, at, Dynamic);
    if short.length != -1 && Savings(short) > Savings(dynamic) then short else dynamic
  }

  function Distance(b: Backref, i: nat): int
  {
    i + b.dictLen - b.address
  }

  lemma FoundIsRef(dict: seq<byte>, d: seq<byte>, at: nat, kind: Kind)
    requires at < |d|
    ensures var b := FoundRef(dict, d, at, kind);
            b.length != -1 ==>
              && IsRef(dict, d, at, kind, Distance(b, at), b.length)
              && (CanEncode(d[at]) ==> Savings(b) >= 0)
  {
    FindRefSound(dict, d, at, kind, MinLength(d[at]));
  }

  lemma BestIsRef(dict: seq<byte>, d: seq<byte>, at: nat)
    requires at < |d|
    ensures var b := BestRef(dict, d, at);
            b.length != -1 ==>
              && IsRef(dict, d, at, b.kind, Distance(b, at), b.length)
              && (CanEncode(d[at]) ==> Savings(b) >= 0)
  {
    hide FoundRef, IsRef;
    FoundKind(dict, d, at);
    FoundIsRef(dict, d, at, Short);
    FoundIsRef(dict, d, at, Dynamic);
  }

  lemma FoundKind(dict: seq<byte>, d: seq<byte>, at: nat)
    requires at < |d|
    ensures FoundRef(dict, d, at, Short).kind == Short && FoundRef(dict, d, at, Dynamic).kind == Dynamic
  {
  }

  /** For an encodable byte only references that save something are looked for. */
  ghost predicate Considered(b: byte, kind: Kind, len: int)
  {
    !CanEncode(b) || 8 * len >= kind.NbBits()
  }

  /** No reference saves more than the best one. */
  lemma BestMaximises(dict: seq<byte>, d: seq<byte>, at: nat, kind: Kind, dist: int, len: int)
    requires at < |d| && IsRef(dict, d, at, kind, dist, len) && Considered(d[at], kind, len)
    ensures var b := BestRef(dict, d, at);
            b.length != -1 && Savings(b) >= 8 * len - kind.NbBits()
  {
    hide IsRef, FindRef;
    RefLength(dict, d, at, kind, dist, len);
    FindRefComplete(dict, d, at, kind, MinLength(d[at]), dist, len);
  }

  /** For an encodable byte nothing is found exactly when no reference saves anything. */
  lemma BestNone(dict: seq<byte>, d: seq<byte>, at: nat)
    requires at < |d| && CanEncode(d[at])
    ensures Savings(BestRef(dict, d, at)) < 0 <==>
            !exists kind: Kind, dist: int, len: int :: IsRef(dict, d, at, kind, dist, len) && 8 * len >= kind.NbBits()
  {
    var b := BestRef(dict, d, at);
    hide IsRef, BestRef;
    BestIsRef(dict, d, at);
    if kind: Kind, dist: int, len: int :| IsRef(dict, d, at, kind, dist, len) && 8 * len >= kind.NbBits() {
      BestMaximises(dict, d, at, kind, dist, len);
      RefLength(dict, d, at, kind, dist, len);
    } else {
      assert b.length == -1;
    }
  }

  lemma RefLength(dict: seq<byte>, d: seq<byte>, at: nat, kind: Kind, dist: int, len: int)
    requires IsRef(dict, d, at, kind, dist, len)
    ensures 1 <= len <= 256 && at + len <= |d| && 1 <= dist
  {
  }

  /** A dictionary with both reserved bytes. */
  ghost predicate Complete(dict: seq<byte>)
  {
    0xFE in dict && 0xFF in dict
  }

  /** For a reserved byte there is always a reference: the byte itself in the dictionary. */
  lemma BestReserved(dict: seq<byte>, d: seq<byte>, at: nat)
    requires at < |d| && !CanEncode(d[at]) && Complete(dict)
    ensures BestRef(dict, d, at).length >= 1
  {
    hide BestRef;
    var p :| 0 <= p < |dict| && dict[p] == d[at];
    assert dict[p..p + 1] == [d[at]] == d[at..at + 1];
    BestMaximises(dict, d, at, Dynamic, at + |dict| - p, 1);
    BestIsRef(dict, d, at);
  }

  // ----- The memo -----

  /** The last three references computed, under the positions they were computed for. */
  class CircularBuffer {
    var k: nat
    var keys: seq<int>
    var refs: seq<Backref>

    ghost predicate Valid(dict: seq<byte>, d: seq<byte>)
      reads this
    {
      && k < 3 && |keys| == |refs| == 3
      && forall s :: 0 <= s < 3 ==> keys[s] == -1 || (0 <= keys[s] < |d| && refs[s] == BestRef(dict, d, keys[s]))
    }

    constructor (ghost dict: seq<byte>, ghost d: seq<byte>)
      ensures Valid(dict, d)
    {
      k := 0;
      keys := [-1, -1, -1];
      var none := Backref(Short, 0, 0, 0);
      refs := [none, none, none];
    }

    method Push(b: Backref, at: nat, ghost dict: seq<byte>, ghost d: seq<byte>)
      requires Valid(dict, d) && at < |d| && b == BestRef(dict, d, at)
      modifies this
      ensures Valid(dict, d)
      ensures keys == old(keys)[old(k) := at] && refs == old(refs)[old(k) := b] && k == (old(k) + 1) % 3
    {
      keys := keys[k := at];
      refs := refs[k := b];
      k := (k + 1) % 3;
    }

    method Best(at: nat, ghost dict: seq<byte>, ghost d: seq<byte>) returns (b: Backref, ok: bool)
      requires Valid(dict, d) && at < |d|
      ensures ok <==> at in keys
      ensures ok ==> b == BestRef(dict, d, at)
    {
      for i := 0 to 3
        invariant at !in keys[..i]
      {
        if keys[i] == at {
          return refs[i], true;
        }
      }
      return Backref(Short, 0, 0, 0), false;
    }
  }

  /** The best reference at a position, from the memo or from the index. */
  method BestBackref(cb: CircularBuffer, d: seq<byte>, at: nat, dataIndex: Index, dictIndex: Index)
    returns (b: Backref, savings: int)
    requires at < |d| && dataIndex.Valid() && dataIndex.data == d && dictIndex.Valid()
    requires cb.Valid(dictIndex.data, d)
    modifies cb
    ensures cb.Valid(dictIndex.data, d)
    ensures b == BestRef(dictIndex.data, d, at) && savings == Savings(b)
  {
    ghost var dict := dictIndex.data;
    var ok;
    b, ok := cb.Best(at, dict, d);
    if ok {
      return b, Savings(b);
    }
    var minLen := -1;
    if !CanEncode(d[at]) {
      minLen := 1;
    }
    var sAddr, sLength := FindBackRef(d, at, Short, minLen, dataIndex, dictIndex);
    var dAddr, dLength := FindBackRef(d, at, Dynamic, minLen, dataIndex, dictIndex);
    var short := Backref(Short, sAddr, sLength, 0);
    var dynamic := Backref(Dynamic, dAddr, dLength, |dictIndex.data|);
    if short.length != -1 && Savings(short) > Savings(dynamic) {
      b := short;
    } else {
      b := dynamic;
    }
    cb.Push(b, at, dict, d);
    savings := Savings(b);
  }
}
