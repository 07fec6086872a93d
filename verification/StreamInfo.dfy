/** The listing of a compressed stream: which stretches of the output are literals, which
    are copies, and where each of them stands in both streams. */
module StreamInfo {
  import opened Options
  import opened Bits
  import opened Phrases
  import opened Decompressor

  /** A group of literals (no kind) or a reference. Places in the output count from the start
      of the dictionary, places in the compressed stream are bits after the header. */
  datatype Entry = Entry(kind: Option<Kind>, length: nat, reference: int, startOut: nat, startIn: nat,
                         content: seq<byte>)

  // ----- What a listing means -----

  /** The bits that an entry takes, and their number. */
  ghost function EntrySize(e: Entry): nat
  {
    match e.kind
    case None => 8 * e.length
    case Some(k) => k.NbBits()
  }

  ghost function EntryBits(e: Entry): seq<bool>
    requires e.kind.Some? ==> e.reference < e.startOut && 1 <= e.length
  {
    match e.kind
    case None => Unpacked(e.content)
    case Some(k) => Print(Ref(k, e.startOut - e.reference, e.length))
  }

  /** The entry says what stands in `buf`, and a reference says where else it stands there. */
  ghost predicate Sound(e: Entry, buf: seq<byte>)
  {
    && 1 <= e.length == |e.content| && e.startOut + e.length <= |buf|
    && e.content == buf[e.startOut..e.startOut + e.length]
    && (match e.kind
        case None => e.reference == e.startOut && forall j :: 0 <= j < e.length ==> CanEncode(e.content[j])
        case Some(k) =>
          && 0 <= e.reference < e.startOut && Fits(Ref(k, e.startOut - e.reference, e.length))
          && e.content == buf[e.reference..e.reference + e.length])
  }

  /** The entries follow each other without gaps, from the end of the dictionary to `i` in the
      output and from 0 to `n` in the bits; each is sound and stands for its bits, and groups of
      literals are as large as can be. */
  ghost predicate Describes(es: seq<Entry>, dictLen: nat, buf: seq<byte>, bits: seq<bool>, i: nat, n: nat)
    ensures Describes(es, dictLen, buf, bits, i, n) ==> dictLen <= i && n <= |bits|
  {
    if es == [] then i == dictLen && n == 0
    else
      var before, e := es[..|es| - 1], es[|es| - 1];
      && e.startOut + e.length == i && e.startIn + EntrySize(e) == n <= |bits|
      && Sound(e, buf) && EntryBits(e) == bits[e.startIn..n]
      && (e.kind.None? ==> EndsWithRef(before))
      && Describes(before, dictLen, buf, bits, e.startOut, e.startIn)
  }

  ghost predicate EndsWithRef(es: seq<Entry>)
  {
    es == [] || es[|es| - 1].kind.Some?
  }

  /** What a phrase appends to a buffer that starts with the dictionary. */
  function Extend(buf: seq<byte>, p: Phrase): Option<seq<byte>>
    requires WellFormed(p)
  {
    match p
    case Literal(b) => Some(buf + [b])
    case Ref(_, dist, len) => if dist > |buf| then None else Some(Copy(buf, dist, len))
  }

  /** The decoder that takes the dictionary for earlier output. */
  ghost function Expand(s: seq<bool>, buf: seq<byte>): Option<seq<byte>>
    decreases |s|
  {
    match ReadOne(s)
    case End => Some(buf)
    case Bad => None
    case Got(p, n) =>
      match Extend(buf, p)
      case None => None
      case Some(more) => Expand(s[n..], more)
  }

  lemma {:induction false} DescribesOn(es: seq<Entry>, dictLen: nat, buf: seq<byte>, more: seq<byte>,
                                       bits: seq<bool>, i: nat, n: nat)
    requires buf <= more && Describes(es, dictLen, buf, bits, i, n)
    ensures Describes(es, dictLen, more, bits, i, n)
    decreases |es|
  {
    hide EntryBits;
    if es != [] {
      var e := es[|es| - 1];
      SoundOn(e, buf, more);
      DescribesOn(es[..|es| - 1], dictLen, buf, more, bits, e.startOut, e.startIn);
    }
  }

  lemma SoundOn(e: Entry, buf: seq<byte>, more: seq<byte>)
    requires buf <= more && Sound(e, buf)
    ensures Sound(e, more)
  {
    assert more[e.startOut..e.startOut + e.length] == buf[e.startOut..e.startOut + e.length];
    if e.kind.Some? {
      assert more[e.reference..e.reference + e.length] == buf[e.reference..e.reference + e.length];
    }
  }

  lemma DescribesMore(es: seq<Entry>, e: Entry, dictLen: nat, buf: seq<byte>, bits: seq<bool>, i: nat, n: nat)
    requires Describes(es, dictLen, buf, bits, e.startOut, e.startIn)
    requires e.startOut + e.length == i && e.startIn + EntrySize(e) == n <= |bits|
    requires Sound(e, buf) && EntryBits(e) == bits[e.startIn..n] && (e.kind.None? ==> EndsWithRef(es))
    ensures Describes(es + [e], dictLen, buf, bits, i, n)
  {
    assert (es + [e])[..|es|] == es;
  }

  // ----- Copies -----

  /** What is copied equals what stands `dist` before it, overlaps included. */
  lemma {:induction false} CopyPeriodic(src: seq<byte>, dist: nat, len: nat)
    requires 1 <= dist <= |src|
    ensures var r := Copy(src, dist, len); r[|src|..] == r[|src| - dist..|r| - dist]
    decreases len
  {
    if len > 0 {
      var next := src + [src[|src| - dist]];
      CopyPeriodic(next, dist, len - 1);
      OneFurther(src, next, Copy(next, dist, len - 1), dist);
    }
  }

  lemma OneFurther(src: seq<byte>, next: seq<byte>, r: seq<byte>, dist: nat)
    requires 1 <= dist <= |src| && next == src + [src[|src| - dist]] && |next| <= |r| && r[..|next|] == next
    requires r[|next|..] == r[|next| - dist..|r| - dist]
    ensures r[|src|..] == r[|src| - dist..|r| - dist]
  {
    assert r[|src|] == next[|src|] == next[|src| - dist] == r[|src| - dist];
    HeadSlice(r, |src|, |r|);
    HeadSlice(r, |src| - dist, |r| - dist);
  }

  lemma HeadSlice<T>(a: seq<T>, i: nat, j: nat)
    requires i < j <= |a|
    ensures a[i..j] == [a[i]] + a[i + 1..j]
    ensures j == |a| ==> a[i..] == a[i..j] && a[i + 1..] == a[i + 1..j]
  {
  }

  // ----- The loop -----

  /** Between two phrases: `res` describes all but the literals since `start`, if there is a
      start. `pos` bits have been read. */
  ghost predicate Going(res: seq<Entry>, dictLen: nat, buf: seq<byte>, bits: seq<bool>, pos: nat, start: int, inI: nat)
    ensures Going(res, dictLen, buf, bits, pos, start, inI) ==> pos <= |bits| && -1 <= start < |buf|
  {
    && EndsWithRef(res) && dictLen <= |buf|
    && (if start == -1 then inI == pos && Describes(res, dictLen, buf, bits, |buf|, pos)
        else
          && 0 <= start < |buf| && inI + 8 * (|buf| - start) == pos <= |bits|
          && Describes(res, dictLen, buf, bits, start, inI)
          && Unpacked(buf[start..]) == bits[inI..pos]
          && forall j :: start <= j < |buf| ==> CanEncode(buf[j]))
  }

  lemma BeginsGoing(dict: seq<byte>, bits: seq<bool>)
    ensures Going([], |dict|, dict, bits, 0, -1, 0)
  {
  }

  /** Lists the literals since `start`, if there is a start. */
  method EmitLiteralIfNecessary(res0: seq<Entry>, buf: seq<byte>, start: int, inI0: nat,
                                ghost dictLen: nat, ghost bits: seq<bool>, ghost pos: nat)
    returns (res: seq<Entry>, inI: nat)
    requires Going(res0, dictLen, buf, bits, pos, start, inI0)
    ensures Describes(res, dictLen, buf, bits, |buf|, pos) && inI == pos
  {
    hide Unpacked, Describes;
    if start == -1 {
      return res0, inI0;
    }
    var e := Entry(None, |buf| - start, start, start, inI0, buf[start..]);
    DescribesMore(res0, e, dictLen, buf, bits, |buf|, pos);
    res, inI := res0 + [e], inI0 + (|buf| - start) * 8;
  }

  /** One more literal joins the group, or starts one. */
  lemma LiteralGoing(res: seq<Entry>, dictLen: nat, buf: seq<byte>, bits: seq<bool>, pos: nat, start: int,
                     inI: nat, b: byte)
    requires Going(res, dictLen, buf, bits, pos, start, inI) && pos + 8 <= |bits|
    requires CanEncode(b) && bits[pos..pos + 8] == ToBits(b, 8)
    ensures Going(res, dictLen, buf + [b], bits, pos + 8, if start == -1 then |buf| else start, inI)
  {
    hide Unpacked, ToBits, Describes;
    var more := buf + [b];
    var from := if start == -1 then |buf| else start;
    DescribesOn(res, dictLen, buf, more, bits, from, inI);
    UnpackedOne(b);
    assert more[from..] == buf[from..] + [b];
    UnpackedConcat(buf[from..], [b]);
    if start == -1 {
      assert buf[from..] == [];
      assert [] + [b] == [b];
    } else {
      assert bits[inI..pos + 8] == bits[inI..pos] + bits[pos..pos + 8];
    }
  }

  lemma RefGoing(res: seq<Entry>, dictLen: nat, buf: seq<byte>, bits: seq<bool>, pos: nat, kind: Kind,
                 dist: nat, len: nat)
    requires Describes(res, dictLen, buf, bits, |buf|, pos)
    requires Fits(Ref(kind, dist, len)) && dist <= |buf| && pos + kind.NbBits() <= |bits|
    requires Print(Ref(kind, dist, len)) == bits[pos..pos + kind.NbBits()]
    ensures var more := Copy(buf, dist, len);
            var e := Entry(Some(kind), len, |buf| - dist, |buf|, pos, more[|buf|..]);
            Going(res + [e], dictLen, more, bits, pos + kind.NbBits(), -1, pos + kind.NbBits())
  {
    hide Print, Describes, Copy;
    var more := Copy(buf, dist, len);
    CopyPeriodic(buf, dist, len);
    DescribesOn(res, dictLen, buf, more, bits, |buf|, pos);
    var e := Entry(Some(kind), len, |buf| - dist, |buf|, pos, more[|buf|..]);
    DescribesMore(res, e, dictLen, more, bits, |more|, pos + kind.NbBits());
  }

  method CompressedStreamInfo(c: seq<byte>, dict0: seq<byte>) returns (r: Option<seq<Entry>>)
    ensures ReadHeader(c).None? || ReadHeader(c).value.version != VERSION ==> r == None
    ensures ReadHeader(c).Some? && ReadHeader(c).value == HeaderInfo(VERSION, true) ==>
              r == Some([Entry(None, |c| - 3, 0, 0, 0, c[3..])])
    ensures ReadHeader(c).Some? && ReadHeader(c).value == HeaderInfo(VERSION, false) ==>
              Lists(r, Unpacked(c[3..]), Augmented(dict0))
  {
    hide *;
    var header := ReadHeader(c);
    if header.None? || header.value.version != VERSION {
      return None;
    }
    HeaderThere(c);
    if header.value.noCompression {
      return Some([Entry(None, |c| - 3, 0, 0, 0, c[3..])]);
    }
    var dict := AugmentDict(dict0);
    r := ListPhrases(Unpacked(c[3..]), dict);
  }

  lemma HeaderThere(c: seq<byte>)
    requires ReadHeader(c).Some?
    ensures |c| >= 3
  {
  }

  /** Nothing where the stream breaks off or points before the dictionary; otherwise a listing
      of everything up to the padding. */
  ghost predicate Lists(r: Option<seq<Entry>>, bits: seq<bool>, dict: seq<byte>)
  {
    match Expand(bits, dict)
    case None => r.None?
    case Some(buf) => r.Some? && exists n: nat :: |bits| - 8 < n && Describes(r.value, |dict|, buf, bits, |buf|, n)
  }

  method ListPhrases(bits: seq<bool>, dict: seq<byte>) returns (r: Option<seq<Entry>>)
    ensures Lists(r, bits, dict)
  {
    hide *;
    var s, buf, res := bits, dict, [];
    var literalCopyStart := -1;
    var inI: nat := 0;
    ghost var pos: nat := 0;
    BeginsGoing(dict, bits);
    while |s| >= 8
      invariant pos <= |bits| && s == bits[pos..] && Expand(s, buf) == Expand(bits, dict)
      invariant Going(res, |dict|, buf, bits, pos, literalCopyStart, inI)
      decreases |s|
    {
      var next := ReadOne(s);
      ReadsOn(s);
      PrintRead(s);
      ExpandStep(s, buf);
      if next.Bad? {
        ListsNone(bits, dict);
        return None;
      }
      PrefixOfDrop(bits, pos, next.size);
      match next.phrase {
        case Literal(b) =>
          LiteralRead(b);
          LiteralGoing(res, |dict|, buf, bits, pos, literalCopyStart, inI, b);
          if literalCopyStart == -1 {
            literalCopyStart := |buf|;
          }
          buf := buf + [b];
        case Ref(kind, dist, len) =>
          res, inI := EmitLiteralIfNecessary(res, buf, literalCopyStart, inI, |dict|, bits, pos);
          literalCopyStart := -1;
          if dist > |buf| {
            ListsNone(bits, dict);
            return None;
          }
          RefRead(kind, dist, len);
          RefGoing(res, |dict|, buf, bits, pos, kind, dist, len);
          buf := CopyBack(buf, dist, len);
          res := res + [Entry(Some(kind), len, |buf| - len - dist, |buf| - len, inI, buf[|buf| - len..])];
          inI := inI + kind.NbBits();
      }
      s := s[next.size..];
      pos := pos + next.size;
    }
    res, inI := EmitLiteralIfNecessary(res, buf, literalCopyStart, inI, |dict|, bits, pos);
    ExpandStep(s, buf);
    PadEnds(s);
    ListsSome(res, bits, dict, buf, pos);
    return Some(res);
  }

  lemma ExpandStep(s: seq<bool>, buf: seq<byte>)
    ensures var r := ReadOne(s);
            && (r.End? ==> Expand(s, buf) == Some(buf))
            && (r.Bad? ==> Expand(s, buf) == None)
            && (r.Got? && r.phrase.Literal? ==> Expand(s, buf) == Expand(s[r.size..], buf + [r.phrase.b]))
            && (r.Got? && r.phrase.Ref? ==>
                  if r.phrase.dist > |buf| then Expand(s, buf) == None
                  else Expand(s, buf) == Expand(s[r.size..], Copy(buf, r.phrase.dist, r.phrase.len)))
  {
    hide ReadOne, Copy;
  }

  lemma ListsNone(bits: seq<bool>, dict: seq<byte>)
    requires Expand(bits, dict) == None
    ensures Lists(None, bits, dict)
  {
  }

  lemma ListsSome(es: seq<Entry>, bits: seq<bool>, dict: seq<byte>, buf: seq<byte>, n: nat)
    requires Expand(bits, dict) == Some(buf) && |bits| - 8 < n && Describes(es, |dict|, buf, bits, |buf|, n)
    ensures Lists(Some(es), bits, dict)
  {
  }

  lemma PrefixOfDrop<T>(a: seq<T>, i: nat, n: nat)
    requires i + n <= |a|
    ensures a[i..][..n] == a[i..i + n] && a[i..][n..] == a[i + n..]
  {
  }

  lemma LiteralRead(b: byte)
    requires Fits(Literal(b))
    ensures CanEncode(b) && Print(Literal(b)) == ToBits(b, 8) && Cost(Literal(b)) == 8
  {
  }

  lemma RefRead(kind: Kind, dist: nat, len: nat)
    requires Fits(Ref(kind, dist, len))
    ensures 1 <= dist && Cost(Ref(kind, dist, len)) == kind.NbBits()
  {
  }

  // ----- Agreement with the decompressor -----

  /** The bytes of all entries. */
  ghost function Contents(es: seq<Entry>): seq<byte>
  {
    if es == [] then [] else Contents(es[..|es| - 1]) + es[|es| - 1].content
  }

  /** The copy starts in the output, or is a dynamic one that stays in the dictionary. */
  ghost predicate Proper(e: Entry, dictLen: nat)
  {
    match e.kind
    case None => true
    case Some(k) => e.reference >= dictLen || (k.Dynamic? && e.reference + e.length <= dictLen)
  }

  ghost predicate AllProper(es: seq<Entry>, dictLen: nat)
  {
    forall k :: 0 <= k < |es| ==> Proper(es[k], dictLen)
  }

  lemma ProperLast(es: seq<Entry>, dictLen: nat)
    requires es != []
    ensures AllProper(es, dictLen) <==> AllProper(es[..|es| - 1], dictLen) && Proper(es[|es| - 1], dictLen)
  {
  }

  lemma {:induction false} DescribedContents(es: seq<Entry>, dictLen: nat, buf: seq<byte>, bits: seq<bool>,
                                             i: nat, n: nat)
    requires Describes(es, dictLen, buf, bits, i, n) && i <= |buf|
    ensures buf[dictLen..i] == Contents(es)
  {
    hide EntryBits;
    if es != [] {
      var e := es[|es| - 1];
      DescribedContents(es[..|es| - 1], dictLen, buf, bits, e.startOut, e.startIn);
      assert buf[dictLen..i] == buf[dictLen..e.startOut] + buf[e.startOut..i];
    }
  }

  lemma {:induction false} DecodeLiterals(dict: seq<byte>, out: seq<byte>, content: seq<byte>, rest: seq<bool>)
    requires forall j :: 0 <= j < |content| ==> CanEncode(content[j])
    ensures Decode(Unpacked(content) + rest, dict, out) == Decode(rest, dict, out + content)
    decreases |content|
  {
    hide ReadOne, ToBits;
    if content == [] {
      assert Unpacked(content) + rest == rest && out + content == out;
    } else {
      var b, more := content[0], Unpacked(content[1..]) + rest;
      ReadPrinted(Literal(b), more);
      var s := Unpacked(content) + rest;
      assert s == ToBits(b, 8) + more;
      assert s[8..] == more;
      DecodeLiterals(dict, out + [b], content[1..], rest);
      assert out + [b] + content[1..] == out + content;
    }
  }

  /** The decompressor follows exactly the references that are proper. */
  lemma ApplyProper(e: Entry, dict: seq<byte>, buf: seq<byte>)
    requires Sound(e, buf) && e.kind.Some? && dict <= buf && |dict| <= e.startOut
    ensures var p := Ref(e.kind.value, e.startOut - e.reference, e.length);
            Apply(dict, buf[|dict|..e.startOut], p) ==
            if Proper(e, |dict|) then Some(buf[|dict|..e.startOut + e.length]) else None
  {
    var m, i, at, len := |dict|, e.startOut, e.reference, e.length;
    if at >= m {
      CopyInside(buf, m, i, at, len);
    } else if Proper(e, m) {
      CopyFromDict(dict, buf, i, at, len);
    }
  }

  lemma CopyInside(buf: seq<byte>, m: nat, i: nat, at: nat, len: nat)
    requires m <= at < i && i + len <= |buf| && buf[at..at + len] == buf[i..i + len]
    ensures Copy(buf[m..i], i - at, len) == buf[m..i + len]
  {
    hide Copy;
    var out, j, k := buf[m..], i - m, at - m;
    SliceBehind(buf, m, m, i);
    SliceBehind(buf, m, m, i + len);
    SliceBehind(buf, m, at, at + len);
    SliceBehind(buf, m, i, i + len);
    CopyRepeats(out, j, j - k, len);
  }

  lemma SliceBehind<T>(a: seq<T>, m: nat, i: nat, j: nat)
    requires m <= i <= j <= |a|
    ensures a[i..j] == a[m..][i - m..j - m]
  {
  }

  lemma CopyFromDict(dict: seq<byte>, buf: seq<byte>, i: nat, at: nat, len: nat)
    requires dict <= buf && |dict| <= i && i + len <= |buf| && at + len <= |dict| && buf[at..at + len] == buf[i..i + len]
    ensures buf[|dict|..i] + dict[at..at + len] == buf[|dict|..i + len]
  {
    assert dict[at..at + len] == buf[at..at + len];
    JoinRange(buf, |dict|, i, i + len);
  }

  lemma JoinRange<T>(a: seq<T>, i: nat, j: nat, k: nat)
    requires i <= j <= k <= |a|
    ensures a[i..j] + a[j..k] == a[i..k]
  {
  }

  lemma DecodeEntry(e: Entry, dict: seq<byte>, buf: seq<byte>, rest: seq<bool>)
    requires Sound(e, buf) && dict <= buf && |dict| <= e.startOut
    ensures Decode(EntryBits(e) + rest, dict, buf[|dict|..e.startOut]) ==
            if Proper(e, |dict|) then Decode(rest, dict, buf[|dict|..e.startOut + e.length]) else None
  {
    hide *;
    match e.kind {
      case None =>
        DecodeGroup(e, dict, buf, rest);
      case Some(k) =>
        DecodeRef(e, dict, buf, rest);
    }
  }

  lemma DecodeGroup(e: Entry, dict: seq<byte>, buf: seq<byte>, rest: seq<bool>)
    requires Sound(e, buf) && dict <= buf && |dict| <= e.startOut && e.kind.None?
    ensures Proper(e, |dict|)
    ensures Decode(EntryBits(e) + rest, dict, buf[|dict|..e.startOut]) == Decode(rest, dict, buf[|dict|..e.startOut + e.length])
  {
    hide Decode, Unpacked;
    var out := buf[|dict|..e.startOut];
    DecodeLiterals(dict, out, e.content, rest);
    JoinRange(buf, |dict|, e.startOut, e.startOut + e.length);
    assert out + e.content == buf[|dict|..e.startOut + e.length];
  }

  lemma DecodeRef(e: Entry, dict: seq<byte>, buf: seq<byte>, rest: seq<bool>)
    requires Sound(e, buf) && dict <= buf && |dict| <= e.startOut && e.kind.Some?
    ensures Decode(EntryBits(e) + rest, dict, buf[|dict|..e.startOut]) ==
            if Proper(e, |dict|) then Decode(rest, dict, buf[|dict|..e.startOut + e.length]) else None
  {
    hide Decode, Print, Fits, Apply, Proper;
    var p := Ref(e.kind.value, e.startOut - e.reference, e.length);
    ApplyProper(e, dict, buf);
    DecodeOne(p, dict, buf[|dict|..e.startOut], rest);
  }

  lemma DecodeOne(p: Phrase, dict: seq<byte>, out: seq<byte>, rest: seq<bool>)
    requires Fits(p)
    ensures WellFormed(p)
    ensures Decode(Print(p) + rest, dict, out) ==
            match Apply(dict, out, p) { case None => None case Some(more) => Decode(rest, dict, more) }
  {
    hide ReadOne, Apply, Print;
    ReadPrinted(p, rest);
    var s := Print(p) + rest;
    assert s[Cost(p)..] == rest;
  }

  lemma {:induction false} DescribedDecode(es: seq<Entry>, dict: seq<byte>, buf: seq<byte>, bits: seq<bool>,
                                           i: nat, n: nat)
    requires Describes(es, |dict|, buf, bits, i, n) && dict <= buf && i <= |buf|
    ensures Decode(bits, dict, []) == if AllProper(es, |dict|) then Decode(bits[n..], dict, buf[|dict|..i]) else None
  {
    hide Decode, Sound, EntryBits, AllProper, Proper;
    if es == [] {
      NoEntries(|dict|);
      assert bits[0..] == bits && buf[|dict|..i] == [];
    } else {
      var e := es[|es| - 1];
      SoundSize(e, buf);
      DescribedDecode(es[..|es| - 1], dict, buf, bits, e.startOut, e.startIn);
      ProperLast(es, |dict|);
      DecodeEntry(e, dict, buf, bits[n..]);
      DropInTwo(bits, e.startIn, n);
    }
  }

  lemma DropInTwo<T>(a: seq<T>, i: nat, j: nat)
    requires i <= j <= |a|
    ensures a[i..] == a[i..j] + a[j..]
  {
  }

  lemma NoEntries(dictLen: nat)
    ensures AllProper([], dictLen)
  {
  }

  lemma SoundSize(e: Entry, buf: seq<byte>)
    requires Sound(e, buf)
    ensures e.startOut + e.length <= |buf| && (e.kind.Some? ==> e.reference < e.startOut && 1 <= e.length)
  {
  }

  /** Copies are the same with the dictionary in front of the output. */
  lemma {:induction false} CopyBehind(dict: seq<byte>, out: seq<byte>, dist: nat, len: nat)
    requires 1 <= dist <= |out|
    ensures Copy(dict + out, dist, len) == dict + Copy(out, dist, len)
    decreases len
  {
    if len > 0 {
      var b := out[|out| - dist];
      CopyBehind(dict, out + [b], dist, len - 1);
      assert (dict + out)[|dict + out| - dist] == b;
      assert dict + out + [b] == dict + (out + [b]);
    }
  }

  lemma ApplyExtends(dict: seq<byte>, out: seq<byte>, p: Phrase)
    requires WellFormed(p) && Apply(dict, out, p).Some?
    ensures Extend(dict + out, p) == Some(dict + Apply(dict, out, p).value)
  {
    match p
    case Literal(b) =>
      assert dict + out + [b] == dict + (out + [b]);
    case Ref(_, dist, len) =>
      if dist <= |out| {
        CopyBehind(dict, out, dist, len);
      } else {
        var i := |dict| + |out|;
        var at := i - dist;
        var d := dict + out + dict[at..at + len];
        assert d[..i] == dict + out && d[..i + len] == d;
        assert d[at..at + len] == dict[at..at + len] == d[i..i + len];
        CopyRepeats(d, i, dist, len);
        assert d == dict + (out + dict[at..at + len]);
      }
  }

  lemma {:induction false} DecodeExpands(s: seq<bool>, dict: seq<byte>, out: seq<byte>)
    requires Decode(s, dict, out).Some?
    ensures Expand(s, dict + out) == Some(dict + Decode(s, dict, out).value)
    decreases |s|
  {
    hide ReadOne, Apply, Extend;
    var r := ReadOne(s);
    if r.Got? {
      ApplyExtends(dict, out, r.phrase);
      DecodeExpands(s[r.size..], dict, Apply(dict, out, r.phrase).value);
    }
  }

  lemma {:induction false} ExpandKeeps(s: seq<bool>, buf: seq<byte>)
    requires Expand(s, buf).Some?
    ensures buf <= Expand(s, buf).value
    decreases |s|
  {
    hide ReadOne;
    var r := ReadOne(s);
    if r.Got? {
      ExpandKeeps(s[r.size..], Extend(buf, r.phrase).value);
    }
  }

  /** The decompressor accepts a stream exactly when it has a listing and all its references
      are proper, and then the listing holds the output. */
  lemma InfoAgrees(c: seq<byte>, dict0: seq<byte>, r: Option<seq<Entry>>)
    requires ReadHeader(c).Some? && ReadHeader(c).value == HeaderInfo(VERSION, false)
    requires Lists(r, Unpacked(c[3..]), Augmented(dict0))
    ensures Decompressed(c, dict0) ==
            if r.Some? && AllProper(r.value, |Augmented(dict0)|) then Some(Contents(r.value)) else None
  {
    hide Decode, Expand, Describes, AllProper, Unpacked, ReadHeader, Augmented;
    HeaderThere(c);
    var bits, dict := Unpacked(c[3..]), Augmented(dict0);
    if Decode(bits, dict, []).Some? {
      DecodeExpands(bits, dict, []);
      assert dict + [] == dict;
    }
    if Expand(bits, dict).Some? {
      var buf := Expand(bits, dict).value;
      ExpandKeeps(bits, dict);
      var n: nat :| |bits| - 8 < n && Describes(r.value, |dict|, buf, bits, |buf|, n);
      DescribedDecode(r.value, dict, buf, bits, |buf|, n);
      DescribedContents(r.value, |dict|, buf, bits, |buf|, n);
      EndsHere(bits[n..], dict, buf[|dict|..]);
      assert buf[|dict|..|buf|] == buf[|dict|..];
    }
  }

  lemma EndsHere(s: seq<bool>, dict: seq<byte>, out: seq<byte>)
    requires |s| < 8
    ensures Decode(s, dict, out) == Some(out)
  {
  }

  /** A short reference into the dictionary is listed, but not accepted. */
  lemma ListedNotAccepted()
    ensures var p, dict := Ref(Short, 1, 1), Augmented([]);
            var c := Header(false) + Packed(Print(p));
            Expand(Unpacked(c[3..]), dict) == Some([0xFE, 0xFF, 0xFF]) && Decompressed(c, []) == None
  {
    hide Print, ReadOne, Packed, Unpacked;
    var p, dict := Ref(Short, 1, 1), Augmented([]);
    var body := Packed(Print(p));
    var c := Header(false) + body;
    assert c[3..] == body && dict == [0xFE, 0xFF];
    UnpackPacked(Print(p));
    var pad := Zeros(Padding(30));
    ReadPrinted(p, pad);
    var s := Print(p) + pad;
    assert s[30..] == pad;
    PadEnds(pad);
    assert Copy(dict, 1, 1) == [0xFE, 0xFF, 0xFF];
    ExpandStep(s, dict);
    ExpandStep(pad, [0xFE, 0xFF, 0xFF]);
  }
}
