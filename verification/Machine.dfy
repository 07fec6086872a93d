/** The compressor as a state machine over its fields: what each call does to them, what
    every run keeps, and what a call to Revert undoes. */
module Machine {
  import opened Options
  import opened Bits
  import opened Phrases
  import opened BackRefs
  import opened Greedy
  import opened Sizes
  import opened Decompressor
  import opened Sessions
  import opened Reach

  /** The fields of a compressor. `cache` holds the bits the bit writer has not passed on. */
  datatype State = State(out: seq<byte>, skipped: nat, cache: seq<bool>, input: seq<byte>,
                         lastOut: int, lastSkipped: nat, lastIn: int, bypass: bool)
  {
    /** What the code relies on whenever Write is called. */
    ghost predicate Ready()
    {
      0 < |out| && skipped < 8 && |cache| < 8 && |input| <= MAX_INPUT_SIZE
    }
  }

  // ----- The calls -----

  /** The bits of the last byte that are in use. */
  ghost function Tail(out: seq<byte>, skipped: nat): (t: seq<bool>)
    requires 0 < |out| && skipped < 8
    ensures |t| == 8 - skipped
  {
    ToBits(out[|out| - 1], 8)[..8 - skipped]
  }

  ghost function Kept(s: State): (k: seq<bool>)
    requires s.Ready()
    ensures |k| == 8 - s.skipped
  {
    Tail(s.out, s.skipped)
  }

  ghost predicate TooLong(s: State, d: seq<byte>)
  {
    |s.input| + |d| > MAX_INPUT_SIZE
  }

  ghost function AfterWrite(c: Coder, s: State, d: seq<byte>): State
    requires c.Valid() && s.Ready()
  {
    var base, bits := s.out[..|s.out| - 1], s.cache + Kept(s);
    var marked := s.(lastOut := |s.out|, lastSkipped := s.skipped);
    if TooLong(s, d) then marked.(out := base + Whole(bits), cache := Rest(bits))
    else
      var fed := marked.(input := s.input + d, lastIn := |s.input|);
      if s.bypass then fed.(out := base + Whole(bits) + d, cache := Rest(bits))
      else
        var all := bits + Body(c, s.input + d, |s.input|);
        fed.(out := base + Packed(all), cache := [], skipped := Padding(|all|))
  }

  /** The bits that the data from `i` on are compressed to. */
  ghost function Body(c: Coder, d: seq<byte>, i: nat): seq<bool>
    requires c.Valid() && i <= |d|
  {
    EmitCovers(c, d, i);
    CoversForm(c.dict, d, i, |d|, Emit(c, d, i));
    PrintAll(Emit(c, d, i))
  }

  ghost function AfterReset(s: State): (r: State)
    ensures |s.cache| < 8 ==> r.Ready()
  {
    State(Header(false), 0, s.cache, [], HEADER_SIZE, 0, 0, false)
  }

  ghost function AfterConsider(s: State): State
  {
    if |s.out| > |s.input| + HEADER_SIZE
    then s.(out := Header(true) + s.input, skipped := 0, lastOut := s.lastIn + HEADER_SIZE, lastSkipped := 0, bypass := true)
    else s
  }

  ghost predicate CanRevert(s: State)
  {
    && |s.cache| < 8
    && (s.lastIn == -1 || (0 <= s.lastIn <= |s.input| && (!s.bypass ==> 0 <= s.lastOut <= |s.out|)))
  }

  ghost function AfterRevert(c: Coder, s: State): State
    requires c.Valid() && CanRevert(s)
  {
    if s.lastIn == -1 then s
    else
      var input := s.input[..s.lastIn];
      if s.bypass
      then AfterConsider(AfterWrite(c, AfterReset(s), input))
      else s.(input := input, lastIn := -1, out := s.out[..s.lastOut], skipped := s.lastSkipped)
  }

  // ----- Views -----

  /** What a compressor is about: the chunks written since the last reset, those to go back to,
      and whether compression is bypassed. */
  datatype View = View(chunks: seq<seq<byte>>, undo: Option<seq<seq<byte>>>, bypass: bool)

  ghost predicate ShowsView(c: Coder, v: View, out: seq<byte>, skipped: nat)
    requires c.Valid()
  {
    if v.bypass then skipped == 0 && out == Header(true) + Flatten(v.chunks)
    else Shows(Stream(c, v.chunks), out, skipped)
  }

  ghost predicate CanUndo(c: Coder, s: State, u: seq<seq<byte>>)
    requires c.Valid()
  {
    && 0 <= s.lastIn <= |s.input| && s.input[..s.lastIn] == Flatten(u)
    && (!s.bypass ==> 0 <= s.lastOut <= |s.out| && Shows(Stream(c, u), s.out[..s.lastOut], s.lastSkipped))
  }

  /** The fields agree with the view. */
  ghost predicate Agrees(c: Coder, s: State, v: View)
    requires c.Valid()
    ensures Agrees(c, s, v) ==> s.Ready() && CanRevert(s) && s.cache == [] && s.bypass == v.bypass
    ensures Agrees(c, s, v) ==> s.input == Flatten(v.chunks)
  {
    && s.Ready() && CanRevert(s) && s.cache == [] && s.bypass == v.bypass && s.input == Flatten(v.chunks)
    && ShowsView(c, v, s.out, s.skipped)
    && (match v.undo case None => s.lastIn == -1 case Some(u) => CanUndo(c, s, u))
  }

  ghost function FreshView(): View
  {
    View([], Some([]), false)
  }

  ghost function WrittenView(v: View, d: seq<byte>): View
  {
    View(v.chunks + [d], Some(v.chunks), v.bypass)
  }

  ghost function ConsideredView(c: Coder, v: View): View
    requires c.Valid()
  {
    if !v.bypass && (|Stream(c, v.chunks)| + 7) / 8 > |Flatten(v.chunks)| + HEADER_SIZE then v.(bypass := true) else v
  }

  ghost function RevertedView(c: Coder, v: View): View
    requires c.Valid()
  {
    match v.undo
    case None => v
    case Some(u) =>
      if v.bypass then ConsideredView(c, WrittenView(FreshView(), Flatten(u))) else View(u, None, false)
  }

  // ----- Every call keeps the agreement -----

  lemma ResetAgrees(c: Coder, s: State)
    requires c.Valid() && s.cache == []
    ensures Agrees(c, AfterReset(s), FreshView())
  {
    StreamNothing(c);
    HeaderShows();
    assert Header(false)[..3] == Header(false);
    assert Flatten([]) == [];
  }

  lemma HeaderShows()
    ensures Shows(Unpacked(Header(false)), Header(false), 0)
  {
    var s := Unpacked(Header(false));
    assert s[..|s|] == s;
  }

  /** Pulling back the last byte and writing on gives the longer stream. */
  lemma WriteOn(s: seq<bool>, out: seq<byte>, skipped: nat, more: seq<bool>)
    requires Shows(s, out, skipped) && 0 < |out| && skipped < 8
    ensures var all := Tail(out, skipped) + more; var longer := out[..|out| - 1] + Packed(all);
            && Shows(s + more, longer, Padding(|all|))
            && |out| <= |longer|
            && Shows(s, longer[..|out|], skipped)
  {
    hide *;
    var kept, base := Tail(out, skipped), out[..|out| - 1];
    ShownBits(s, out, skipped);
    TailIsRest(s, out, skipped);
    Continued(base, kept + more);
    assert Unpacked(base) + (kept + more) == s + more by {
      assert Unpacked(base) + kept == s;
    }
    CutBack(s, more, base + Packed(kept + more), |out|, skipped, Padding(|kept + more|));
  }

  lemma CutBack(s: seq<bool>, more: seq<bool>, longer: seq<byte>, n: nat, skipped: nat, pad: nat)
    requires Shows(s + more, longer, pad) && 8 * n == |s| + skipped && skipped < 8
    ensures n <= |longer| && Shows(s, longer[..n], skipped)
  {
    hide Unpacked;
    var long := s + more;
    assert long[..|s|] == s;
    PrefixOfPrefix(Unpacked(longer), |s|, |long|);
    FirstBytes(s, longer, n, skipped);
  }

  lemma TailIsRest(s: seq<bool>, out: seq<byte>, skipped: nat)
    requires Shows(s, out, skipped) && 0 < |out| && skipped < 8
    ensures Unpacked(out[..|out| - 1]) + Tail(out, skipped) == s
  {
    hide Shows, Unpacked, ToBits;
    ShownBits(s, out, skipped);
    LastBits(out);
    TakeOfConcat(Unpacked(out[..|out| - 1]), ToBits(out[|out| - 1], 8), |s|, 8 - skipped);
  }

  lemma ShownBits(s: seq<bool>, out: seq<byte>, skipped: nat)
    requires Shows(s, out, skipped)
    ensures skipped < 8 && |s| == 8 * |out| - skipped && Unpacked(out)[..|s|] == s
  {
  }

  lemma Continued(base: seq<byte>, tail: seq<bool>)
    ensures Shows(Unpacked(base) + tail, base + Packed(tail), Padding(|tail|))
  {
    hide ToBits, Unpacked, Packed, Padding;
    UnpackedConcat(base, Packed(tail));
    UnpackPacked(tail);
    var s, pad := Unpacked(base) + tail, Zeros(Padding(|tail|));
    assert Unpacked(base) + (tail + pad) == s + pad;
    assert (s + pad)[..|s|] == s;
  }

  /** Cutting the bytes off again leaves a stream that differs in its padding at most. */
  lemma FirstBytes(s: seq<bool>, out: seq<byte>, n: nat, skipped: nat)
    requires n <= |out| && skipped < 8 && 8 * n == |s| + skipped && Unpacked(out)[..|s|] == s
    ensures Shows(s, out[..n], skipped)
  {
    hide ToBits, Unpacked;
    UnpackedSplit(out, n);
    PrefixOfPrefix(Unpacked(out), |s|, 8 * n);
  }

  /** A Write that does not fail adds its chunk to the view. */
  lemma WriteAgrees(c: Coder, s: State, v: View, d: seq<byte>)
    requires c.Valid() && Agrees(c, s, v) && !TooLong(s, d)
    ensures Agrees(c, AfterWrite(c, s, d), WrittenView(v, d))
  {
    hide Shows, Stream, Flatten, AfterWrite;
    StreamStep(c, v.chunks, d);
    WriteRemembers(c, s, d);
    var t := AfterWrite(c, s, d);
    if s.bypass {
      BypassWrite(c, s, d);
      assert Header(true) + Flatten(v.chunks) + d == Header(true) + (Flatten(v.chunks) + d);
    } else {
      CompressWrite(c, s, v.chunks, d);
      ShownSize(Stream(c, v.chunks + [d]), t.out, t.skipped);
      StreamSize(c, v.chunks + [d]);
    }
  }

  /** What a Write that does not fail remembers, and what it leaves alone. */
  lemma WriteRemembers(c: Coder, s: State, d: seq<byte>)
    requires c.Valid() && s.Ready() && !TooLong(s, d)
    ensures var t := AfterWrite(c, s, d);
            && t.input == s.input + d && t.lastIn == |s.input| && t.input[..t.lastIn] == s.input
            && t.lastOut == |s.out| && t.lastSkipped == s.skipped && t.bypass == s.bypass
            && (s.bypass ==> t.skipped == s.skipped) && (!s.bypass ==> t.cache == [])
  {
    hide Packed, Padding, Whole, Rest, Tail, Body;
  }

  lemma BypassWrite(c: Coder, s: State, d: seq<byte>)
    requires c.Valid() && s.Ready() && s.bypass && s.skipped == 0 && s.cache == [] && !TooLong(s, d)
    ensures AfterWrite(c, s, d).out == s.out + d && AfterWrite(c, s, d).cache == []
  {
    hide Tail, Whole, Rest, Body;
    LastByte(s.out);
    assert s.cache + Kept(s) == Kept(s);
  }

  lemma CompressWrite(c: Coder, s: State, chunks: seq<seq<byte>>, d: seq<byte>)
    requires c.Valid() && s.Ready() && !s.bypass && s.cache == [] && !TooLong(s, d) && s.input == Flatten(chunks)
    requires Shows(Stream(c, chunks), s.out, s.skipped)
    ensures var t := AfterWrite(c, s, d);
            && Shows(Stream(c, chunks + [d]), t.out, t.skipped) && t.lastOut <= |t.out|
            && Shows(Stream(c, chunks), t.out[..t.lastOut], t.lastSkipped)
  {
    hide Shows, Emit, Unpacked, Packed, Stream, Flatten, Padding;
    StreamStep(c, chunks, d);
    WriteOn(Stream(c, chunks), s.out, s.skipped, Body(c, s.input + d, |s.input|));
    assert s.cache + Kept(s) == Kept(s);
  }

  lemma ShownSize(s: seq<bool>, out: seq<byte>, skipped: nat)
    requires Shows(s, out, skipped)
    ensures skipped < 8 && |out| == (|s| + 7) / 8
  {
  }

  /** Taking back a full byte and writing it again changes nothing. */
  lemma LastByte(out: seq<byte>)
    requires 0 < |out|
    ensures out[..|out| - 1] + Whole(Tail(out, 0)) == out && Rest(Tail(out, 0)) == []
  {
    hide Unpacked, ToBits, Whole, Rest;
    var n := |out| - 1;
    UnpackedOne(out[n]);
    assert Tail(out, 0) == ToBits(out[n], 8);
    OneByte(Tail(out, 0));
    UnpackedInjective(Whole(Tail(out, 0)), [out[n]]);
    assert out[..n] + [out[n]] == out;
  }

  lemma OneByte(kept: seq<bool>)
    requires |kept| == 8
    ensures Unpacked(Whole(kept)) == kept && Rest(kept) == []
  {
    hide ToBits, Unpacked, Packed;
    assert kept[..8] == kept;
    UnpackPacked(kept);
    assert kept + Zeros(0) == kept;
  }

  lemma ConsiderAgrees(c: Coder, s: State, v: View)
    requires c.Valid() && Agrees(c, s, v)
    ensures Agrees(c, AfterConsider(s), ConsideredView(c, v))
  {
    hide Stream, Flatten;
    if !s.bypass {
      ShownSize(Stream(c, v.chunks), s.out, s.skipped);
    }
  }

  lemma RevertAgrees(c: Coder, s: State, v: View)
    requires c.Valid() && Agrees(c, s, v)
    ensures Agrees(c, AfterRevert(c, s), RevertedView(c, v))
  {
    if v.undo.Some? {
      if s.bypass {
        var r, w := AfterReset(s), WrittenView(FreshView(), Flatten(v.undo.value));
        ResetAgrees(c, s);
        WriteAgrees(c, r, FreshView(), s.input[..s.lastIn]);
        ConsiderAgrees(c, AfterWrite(c, r, s.input[..s.lastIn]), w);
      } else {
        ShownSize(Stream(c, v.undo.value), s.out[..s.lastOut], s.lastSkipped);
        StreamSize(c, v.undo.value);
      }
    }
  }

  lemma StreamSize(c: Coder, chunks: seq<seq<byte>>)
    requires c.Valid()
    ensures |Stream(c, chunks)| >= 24
  {
  }

  // ----- Runs -----

  datatype Op = Write(d: seq<byte>) | Revert | Consider | Reset

  ghost function Next(c: Coder, s: State, op: Op): State
    requires c.Valid() && s.Ready() && CanRevert(s)
  {
    match op
    case Write(d) => AfterWrite(c, s, d)
    case Revert => AfterRevert(c, s)
    case Consider => AfterConsider(s)
    case Reset => AfterReset(s)
  }

  ghost function NextView(c: Coder, v: View, op: Op): View
    requires c.Valid()
  {
    match op
    case Write(d) => WrittenView(v, d)
    case Revert => RevertedView(c, v)
    case Consider => ConsideredView(c, v)
    case Reset => FreshView()
  }

  /** The state after the calls. A call that the code cannot make ends the run; see `NeverStuck`. */
  ghost function Run(c: Coder, s: State, ops: seq<Op>): State
    requires c.Valid()
    decreases |ops|
  {
    if ops == [] || !s.Ready() || !CanRevert(s) then s else Run(c, Next(c, s, ops[0]), ops[1..])
  }

  ghost function RunView(c: Coder, v: View, ops: seq<Op>): View
    requires c.Valid()
    decreases |ops|
  {
    if ops == [] then v else RunView(c, NextView(c, v, ops[0]), ops[1..])
  }

  /** No Write of the run exceeds the input size. */
  ghost predicate NoFailure(c: Coder, s: State, ops: seq<Op>)
    requires c.Valid()
    decreases |ops|
  {
    ops != [] ==>
      && (ops[0].Write? ==> !TooLong(s, ops[0].d))
      && (s.Ready() && CanRevert(s) ==> NoFailure(c, Next(c, s, ops[0]), ops[1..]))
  }

  /** Every call of the run can be made. */
  ghost predicate NeverStuck(c: Coder, s: State, ops: seq<Op>)
    requires c.Valid()
    decreases |ops|
  {
    s.Ready() && CanRevert(s) && (ops == [] || NeverStuck(c, Next(c, s, ops[0]), ops[1..]))
  }

  lemma NextAgrees(c: Coder, s: State, v: View, op: Op)
    requires c.Valid() && Agrees(c, s, v) && (op.Write? ==> !TooLong(s, op.d))
    ensures Agrees(c, Next(c, s, op), NextView(c, v, op))
  {
    hide Agrees, AfterWrite, AfterRevert, AfterConsider, AfterReset, RevertedView, ConsideredView;
    match op
    case Write(d) => WriteAgrees(c, s, v, d);
    case Revert => RevertAgrees(c, s, v);
    case Consider => ConsiderAgrees(c, s, v);
    case Reset => ResetAgrees(c, s);
  }

  lemma {:induction false} RunAgrees(c: Coder, s: State, v: View, ops: seq<Op>)
    requires c.Valid() && Agrees(c, s, v) && NoFailure(c, s, ops)
    ensures NeverStuck(c, s, ops) && Agrees(c, Run(c, s, ops), RunView(c, v, ops))
    decreases |ops|
  {
    hide Next, NextView, Agrees;
    if ops != [] {
      NextAgrees(c, s, v, ops[0]);
      RunAgrees(c, Next(c, s, ops[0]), NextView(c, v, ops[0]), ops[1..]);
    }
  }

  /** The state of a new compressor. */
  ghost function NewState(): State
  {
    AfterReset(State([], 0, [], [], 0, 0, 0, false))
  }

  lemma AgreesDecompresses(c: Coder, s: State, v: View, dict: seq<byte>)
    requires c.Valid() && c.dict == Augmented(dict) && Agrees(c, s, v)
    requires s.bypass || InReach(c.dict, s.input)
    ensures Decompressed(s.out, dict) == Some(s.input)
  {
    hide Stream;
    if s.bypass {
      assert s.out[3..] == s.input;
    } else {
      ShownDecompresses(c, v.chunks, s.out, s.skipped, dict);
    }
  }

  /** After every run without a failed Write, decompressing the output gives the input. */
  lemma RunDecompresses(c: Coder, dict: seq<byte>, ops: seq<Op>)
    requires c.Valid() && c.dict == Augmented(dict) && NoFailure(c, NewState(), ops)
    ensures NeverStuck(c, NewState(), ops)
    ensures var s := Run(c, NewState(), ops);
            s.bypass || InReach(c.dict, s.input) ==> Decompressed(s.out, dict) == Some(s.input)
  {
    hide Agrees, Run, RunView;
    ResetAgrees(c, State([], 0, [], [], 0, 0, 0, false));
    RunAgrees(c, NewState(), FreshView(), ops);
    var s, v := Run(c, NewState(), ops), RunView(c, FreshView(), ops);
    if s.bypass || InReach(c.dict, s.input) {
      AgreesDecompresses(c, s, v, dict);
    }
  }

  // ----- Undoing -----

  /** The states differ at most in what is remembered for Revert and in the bits of the last
      output byte that are not in use. */
  ghost predicate SameButPadding(s: State, t: State)
  {
    && |s.out| == |t.out| > 0 && s.skipped == t.skipped < 8
    && Unpacked(s.out)[..8 * |s.out| - s.skipped] == Unpacked(t.out)[..8 * |t.out| - t.skipped]
    && s.cache == t.cache && s.input == t.input && s.bypass == t.bypass
  }

  /** Outside bypass mode, Revert undoes a Write up to padding. */
  lemma WriteRevert(c: Coder, s: State, v: View, d: seq<byte>)
    requires c.Valid() && Agrees(c, s, v) && !s.bypass && !TooLong(s, d)
    ensures CanRevert(AfterWrite(c, s, d))
    ensures var t := AfterRevert(c, AfterWrite(c, s, d));
            SameButPadding(s, t) && t.lastIn == -1
  {
    hide Stream, Unpacked, AfterWrite;
    WriteAgrees(c, s, v, d);
    WriteRemembers(c, s, d);
    CompressWrite(c, s, v.chunks, d);
  }

  /** Revert leaves the chunks that were there before the last Write. */
  lemma RevertLeaves(c: Coder, s: State, v: View)
    requires c.Valid() && Agrees(c, s, v) && v.undo.Some?
    ensures AfterRevert(c, s).input == Flatten(v.undo.value) == Flatten(RevertedView(c, v).chunks)
  {
    hide Flatten, AfterWrite, Stream, Shows, ShowsView;
    var u := v.undo.value;
    if s.bypass {
      assert [] + s.input[..s.lastIn] == s.input[..s.lastIn];
      WriteRemembers(c, AfterReset(s), s.input[..s.lastIn]);
    }
    FlattenOne(Flatten(u));
  }

  lemma FlattenOne(d: seq<byte>)
    ensures Flatten([] + [d]) == d
  {
    assert ([] + [d])[..0] == [] && Flatten([]) == [];
  }

  /** In every mode, with or without a call to ConsiderBypassing in between, a Revert after a Write
      gives back the input. */
  lemma RevertInput(c: Coder, s: State, v: View, d: seq<byte>)
    requires c.Valid() && Agrees(c, s, v) && !TooLong(s, d)
    ensures var w := AfterWrite(c, s, d);
            && CanRevert(w) && AfterRevert(c, w).input == s.input
            && CanRevert(AfterConsider(w)) && AfterRevert(c, AfterConsider(w)).input == s.input
  {
    hide Agrees, AfterWrite, AfterRevert, AfterConsider, RevertedView, ConsideredView, Flatten;
    var w, x := AfterWrite(c, s, d), WrittenView(v, d);
    WriteAgrees(c, s, v, d);
    RevertLeaves(c, w, x);
    ConsiderAgrees(c, w, x);
    ConsiderKeepsUndo(c, x);
    RevertLeaves(c, AfterConsider(w), ConsideredView(c, x));
  }

  /** Bypassing turns what is remembered into the length that the bypassed output had before the
      last Write. */
  lemma ConsiderRemembers(c: Coder, s: State, v: View)
    requires c.Valid() && Agrees(c, s, v) && v.undo.Some? && |s.out| > |s.input| + 3
    ensures var t := AfterConsider(s);
            && t.bypass && t.lastSkipped == 0 && t.lastIn == s.lastIn
            && 0 <= t.lastOut <= |t.out| && t.out[..t.lastOut] == [0, 1, 1] + Flatten(v.undo.value)
  {
    hide Flatten, Stream, Shows, ShowsView;
    var t := AfterConsider(s);
    assert t.out[..t.lastOut] == Header(true) + s.input[..s.lastIn];
  }

  lemma ConsiderKeepsUndo(c: Coder, v: View)
    requires c.Valid()
    ensures ConsideredView(c, v).undo == v.undo
  {
  }

  /** In bypass mode a Write and a Revert leave what a new compressor that has been given the input
      before them in one piece would hold after considering to bypass. */
  lemma BypassRevert(c: Coder, s: State, v: View, d: seq<byte>)
    requires c.Valid() && Agrees(c, s, v) && s.bypass && !TooLong(s, d)
    ensures CanRevert(AfterWrite(c, s, d))
    ensures AfterRevert(c, AfterWrite(c, s, d)) == AfterConsider(AfterWrite(c, NewState(), s.input))
  {
    hide AfterWrite, AfterConsider, Stream, Shows;
    WriteAgrees(c, s, v, d);
    WriteRemembers(c, s, d);
    BypassWrite(c, s, d);
    assert AfterReset(AfterWrite(c, s, d)) == NewState();
  }

  /** Outside bypass mode a second Revert does nothing; after a Reset, Revert has nothing to undo. */
  lemma NothingToRevert(c: Coder, s: State, v: View)
    requires c.Valid() && Agrees(c, s, v)
    ensures !s.bypass ==> AfterRevert(c, s).lastIn == -1 && AfterRevert(c, AfterRevert(c, s)) == AfterRevert(c, s)
    ensures var r := AfterReset(s); r.lastIn == 0 && CanRevert(r) && AfterRevert(c, r) == r.(lastIn := -1)
  {
    hide Agrees;
    var r := AfterReset(s);
    assert r.out[..3] == r.out && r.input[..0] == [];
  }

  /** The padding does not show after decompression either, in or out of reach and with any
      dictionary. */
  lemma RevertSameOutput(c: Coder, s: State, v: View, d: seq<byte>, dict: seq<byte>)
    requires c.Valid() && Agrees(c, s, v) && !s.bypass && !TooLong(s, d)
    ensures CanRevert(AfterWrite(c, s, d))
    ensures Decompressed(AfterRevert(c, AfterWrite(c, s, d)).out, dict) == Decompressed(s.out, dict)
  {
    hide Stream, Shows, AfterWrite, Replay, AllCutOff;
    WriteAgrees(c, s, v, d);
    var w := AfterWrite(c, s, d);
    RevertAgrees(c, w, WrittenView(v, d));
    var t := AfterRevert(c, w);
    ShownReplays(c, v.chunks, s.out, s.skipped, dict);
    ShownReplays(c, v.chunks, t.out, t.skipped, dict);
  }

  /** A Write does not see the padding, nor what was remembered for Revert. */
  lemma WriteIgnoresPadding(c: Coder, s: State, t: State, d: seq<byte>)
    requires c.Valid() && s.Ready() && t.Ready() && SameButPadding(s, t) && !TooLong(s, d)
    ensures AfterWrite(c, s, d) == AfterWrite(c, t, d)
  {
    hide Unpacked, Packed, Body, Padding, Whole, Rest;
    KeptSame(s, t);
  }

  lemma KeptSame(s: State, t: State)
    requires s.Ready() && t.Ready() && SameButPadding(s, t)
    ensures Kept(s) == Kept(t) && s.out[..|s.out| - 1] == t.out[..|t.out| - 1]
  {
    hide ToBits, Unpacked;
    var n := |s.out| - 1;
    LastBits(s.out);
    LastBits(t.out);
    PrefixParts(Unpacked(s.out[..n]), ToBits(s.out[n], 8), Unpacked(t.out[..n]), ToBits(t.out[n], 8),
                8 * |s.out| - s.skipped, 8 - s.skipped);
    UnpackedInjective(s.out[..n], t.out[..n]);
  }

  /** The run calls Write or Reset before it calls Revert, as the documentation demands. */
  ghost predicate RevertLater(ops: seq<Op>)
    decreases |ops|
  {
    ops == [] || ops[0].Write? || ops[0].Reset? || (ops[0].Consider? && RevertLater(ops[1..]))
  }

  ghost predicate OnlyConsiders(ops: seq<Op>)
  {
    forall i :: 0 <= i < |ops| ==> ops[i].Consider?
  }

  lemma ConsiderSame(s: State, t: State)
    requires s.Ready() && t.Ready() && CanRevert(s) && CanRevert(t) && SameButPadding(s, t)
    ensures var x, y := AfterConsider(s), AfterConsider(t);
            x.Ready() && y.Ready() && CanRevert(x) && CanRevert(y) && SameButPadding(x, y)
  {
    hide Unpacked;
  }

  lemma {:induction false} SamePaddingRun(c: Coder, s: State, t: State, ops: seq<Op>)
    requires c.Valid() && s.Ready() && t.Ready() && CanRevert(s) && CanRevert(t) && SameButPadding(s, t)
    requires RevertLater(ops) && NoFailure(c, s, ops)
    ensures if OnlyConsiders(ops) then SameButPadding(Run(c, s, ops), Run(c, t, ops)) else Run(c, s, ops) == Run(c, t, ops)
    decreases |ops|
  {
    hide SameButPadding, AfterWrite, AfterConsider, CanRevert;
    if ops != [] {
      match ops[0] {
        case Write(d) =>
          WriteIgnoresPadding(c, s, t, d);
        case Reset =>
          SameCache(s, t);
        case Consider =>
          ConsiderSame(s, t);
          SamePaddingRun(c, AfterConsider(s), AfterConsider(t), ops[1..]);
          assert OnlyConsiders(ops) <==> OnlyConsiders(ops[1..]) by { assert ops == [ops[0]] + ops[1..]; }
        case Revert =>
      }
    }
  }

  lemma SameCache(s: State, t: State)
    requires SameButPadding(s, t)
    ensures s.cache == t.cache
  {
  }

  /** No run can tell that a Write was made and reverted: it ends in the same state as without
      them, or differs in the padding only as long as nothing is written. */
  lemma UndoneForGood(c: Coder, s: State, v: View, d: seq<byte>, ops: seq<Op>)
    requires c.Valid() && Agrees(c, s, v) && !s.bypass && !TooLong(s, d)
    requires RevertLater(ops) && NoFailure(c, s, ops)
    ensures CanRevert(AfterWrite(c, s, d))
    ensures var t := AfterRevert(c, AfterWrite(c, s, d));
            if OnlyConsiders(ops) then SameButPadding(Run(c, s, ops), Run(c, t, ops)) else Run(c, s, ops) == Run(c, t, ops)
  {
    hide AfterWrite, AfterRevert, SameButPadding, OnlyConsiders;
    WriteRevert(c, s, v, d);
    WriteAgrees(c, s, v, d);
    RevertAgrees(c, AfterWrite(c, s, d), WrittenView(v, d));
    SamePaddingRun(c, s, AfterRevert(c, AfterWrite(c, s, d)), ops);
  }

  // ----- Sizes -----

  /** The size announced without writing is the size of the output. */
  lemma SizeAnnounced(c: Coder, s: State, d: seq<byte>)
    requires c.Valid() && s.cache == [] && |d| <= MAX_INPUT_SIZE
    ensures |AfterWrite(c, AfterReset(s), d).out| == HEADER_SIZE + (TotalCost(Emit(c, d, 0)) + 7) / 8
  {
    hide ToBits, Emit, Packed, Unpacked;
    assert [] + d == d;
    EmitCovers(c, d, 0);
    CoversForm(c.dict, d, 0, |d|, Emit(c, d, 0));
    PrintSize(Emit(c, d, 0));
  }

  /** Without reserved bytes compression is never bypassed. */
  lemma NeverBypassed(c: Coder, s: State, v: View)
    requires c.Valid() && Agrees(c, s, v) && !s.bypass && Reserved(s.input, 0, |s.input|) == 0
    ensures AfterConsider(s) == s
  {
    hide Stream;
    WorstCase(c, v.chunks, s.out, s.skipped);
  }
}
