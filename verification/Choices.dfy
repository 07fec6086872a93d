/** Which phrases the compression loop picks, in terms of the references that exist. */
module Choices {
  import opened Bits
  import opened Phrases
  import opened BackRefs
  import opened Greedy

  // ----- What references save -----

  /** The bits that a reference of length `len` saves over literals. */
  function Gain(kind: Kind, len: int): int
  {
    8 * len - if kind.Short? then 30 else 37
  }

  /** There is a reference at `i` that saves at least `s` bits. */
  ghost predicate HasGain(dict: seq<byte>, d: seq<byte>, i: nat, s: int)
  {
    exists kind: Kind, dist: int, len: int :: IsRef(dict, d, i, kind, dist, len) && Gain(kind, len) >= s
  }

  /** `s` is the most that a reference at `i` saves. */
  ghost predicate Most(dict: seq<byte>, d: seq<byte>, i: nat, s: int)
  {
    HasGain(dict, d, i, s) && !HasGain(dict, d, i, s + 1)
  }

  lemma GainIsSavings(b: Backref)
    requires b.length != -1
    ensures Savings(b) == Gain(b.kind, b.length)
  {
  }

  /** The best reference saves as much as any. For an encodable byte, references that save
      nothing are not looked for. */
  lemma GainOfBest(dict: seq<byte>, d: seq<byte>, i: nat, s: int)
    requires i < |d| && (0 <= s || !CanEncode(d[i]))
    ensures var b := BestRef(dict, d, i);
            HasGain(dict, d, i, s) <==> b.length != -1 && Savings(b) >= s
  {
    hide IsRef, BestRef, Savings, Gain;
    var b := BestRef(dict, d, i);
    BestIsRef(dict, d, i);
    if b.length != -1 {
      GainIsSavings(b);
    }
    if kind: Kind, dist: int, len: int :| IsRef(dict, d, i, kind, dist, len) && Gain(kind, len) >= s {
      GainInBits(kind, len);
      BestMaximises(dict, d, i, kind, dist, len);
    }
  }

  lemma GainInBits(kind: Kind, len: int)
    ensures Gain(kind, len) == 8 * len - kind.NbBits()
  {
  }

  lemma NoGainBeyond(dict: seq<byte>, d: seq<byte>, i: nat, s: int)
    requires i >= |d|
    ensures !HasGain(dict, d, i, s)
  {
  }

  lemma MostOfBest(dict: seq<byte>, d: seq<byte>, i: nat)
    requires i < |d|
    ensures var b := BestRef(dict, d, i);
            b.length != -1 && (0 <= Savings(b) || !CanEncode(d[i])) ==> Most(dict, d, i, Savings(b))
  {
    hide BestRef, Savings, HasGain;
    var s := Savings(BestRef(dict, d, i));
    if 0 <= s || !CanEncode(d[i]) {
      GainOfBest(dict, d, i, s);
      GainOfBest(dict, d, i, s + 1);
    }
  }

  // ----- Away from long runs -----

  /** A run of 160 equal bytes starts at `i`. */
  ghost predicate LongRun(d: seq<byte>, i: nat)
  {
    i + 160 <= |d| && forall k :: i <= k < i + 160 ==> d[k] == d[i]
  }

  lemma RunIff(d: seq<byte>, i: nat)
    requires i < |d|
    ensures RunFrom(d, i, 0) >= MIN_REPEATING_BYTES <==> LongRun(d, i)
  {
    hide RunFrom;
  }

  /** The phrase is a reference at `i` that saves exactly `s` bits. */
  ghost predicate RefSaving(dict: seq<byte>, d: seq<byte>, i: nat, s: int, p: Phrase)
  {
    p.Ref? && IsRef(dict, d, i, p.kind, p.dist, p.len) && Gain(p.kind, p.len) == s
  }

  /** A reference one byte further on saves more than a literal and the reference at `i`. */
  ghost predicate BetterNext(dict: seq<byte>, d: seq<byte>, i: nat, s: int)
  {
    HasGain(dict, d, i + 1, s + 2)
  }

  /** The same two bytes further on, if the byte between them has a literal. */
  ghost predicate BetterSecond(dict: seq<byte>, d: seq<byte>, i: nat, s: int)
  {
    i + 1 < |d| && CanEncode(d[i + 1]) && HasGain(dict, d, i + 2, s + 3)
  }

  /** What is picked for an encodable byte: a literal if no reference saves anything, otherwise
      the reference that saves the most, unless waiting for one or two bytes pays. */
  ghost predicate Picked(dict: seq<byte>, d: seq<byte>, i: nat, s: int, ps: seq<Phrase>)
    requires i < |d|
  {
    if s < 0 then !HasGain(dict, d, i, 0) && ps == [Literal(d[i])]
    else
      && Most(dict, d, i, s)
      && (if BetterNext(dict, d, i, s) then ps == [Literal(d[i])]
          else if BetterSecond(dict, d, i, s) then i + 1 < |d| && ps == [Literal(d[i]), Literal(d[i + 1])]
          else |ps| == 1 && RefSaving(dict, d, i, s, ps[0]))
  }

  lemma StepPicks(c: Coder, d: seq<byte>, i: nat) returns (s: int)
    requires c.Valid() && i < |d| && CanEncode(d[i]) && !LongRun(d, i)
    ensures Picked(c.dict, d, i, s, Step(c, d, i))
  {
    hide BestRef, RunFrom, Savings, HasGain, Most, Gain, IsRef;
    RunIff(d, i);
    BestMeans(c, d, i);
    var b := BestRef(c.dict, d, i);
    s := Savings(b);
    if s < 0 {
      GainOfBest(c.dict, d, i, 0);
    } else {
      MostOfBest(c.dict, d, i);
      GainIsSavings(b);
      Ahead(c.dict, d, i + 1, s + 1);
      Ahead(c.dict, d, i + 2, s + 2);
    }
  }

  lemma Ahead(dict: seq<byte>, d: seq<byte>, j: nat, s: int)
    requires 0 <= s
    ensures HasGain(dict, d, j, s + 1) <==> j < |d| && Savings(BestRef(dict, d, j)) > s
  {
    hide BestRef, HasGain;
    if j < |d| {
      GainOfBest(dict, d, j, s + 1);
    } else {
      NoGainBeyond(dict, d, j, s + 1);
    }
  }

  ghost predicate IsReference(ps: seq<Phrase>)
  {
    |ps| == 1 && ps[0].Ref?
  }

  /** A reference is emitted at `i` exactly when one saves something and none that starts one or
      two bytes further on saves more than the literals in between cost; and then it is one that
      saves the most. */
  lemma ReferenceIff(c: Coder, d: seq<byte>, i: nat)
    requires c.Valid() && i < |d| && CanEncode(d[i]) && !LongRun(d, i)
    ensures IsReference(Step(c, d, i)) <==>
            exists s :: 0 <= s && Most(c.dict, d, i, s) && !BetterNext(c.dict, d, i, s) && !BetterSecond(c.dict, d, i, s)
    ensures IsReference(Step(c, d, i)) ==>
              forall s :: 0 <= s && Most(c.dict, d, i, s) ==> RefSaving(c.dict, d, i, s, Step(c, d, i)[0])
  {
    hide Step, BetterNext, BetterSecond, RefSaving, Most;
    var r := StepPicks(c, d, i);
    PickedFirst(c.dict, d, i, r, Step(c, d, i));
    forall s | 0 <= s && Most(c.dict, d, i, s) ensures r == s {
      MostUnique(c.dict, d, i, r, s);
    }
  }

  lemma PickedFirst(dict: seq<byte>, d: seq<byte>, i: nat, s: int, ps: seq<Phrase>)
    requires i < |d| && Picked(dict, d, i, s, ps)
    ensures IsReference(ps) <==> 0 <= s && !BetterNext(dict, d, i, s) && !BetterSecond(dict, d, i, s)
  {
    hide BetterNext, BetterSecond, HasGain, Most, IsRef;
  }

  lemma MostUnique(dict: seq<byte>, d: seq<byte>, i: nat, r: int, s: int)
    requires 0 <= s && Most(dict, d, i, s) && (if r < 0 then !HasGain(dict, d, i, 0) else Most(dict, d, i, r))
    ensures r == s
  {
    hide HasGain;
    if r < 0 {
      GainDown(dict, d, i, s, 0);
    } else if r < s {
      GainDown(dict, d, i, s, r + 1);
    } else if s < r {
      GainDown(dict, d, i, r, s + 1);
    }
  }

  lemma GainDown(dict: seq<byte>, d: seq<byte>, i: nat, s: int, r: int)
    requires HasGain(dict, d, i, s) && r <= s
    ensures HasGain(dict, d, i, r)
  {
    hide IsRef, Gain;
  }

  /** For a reserved byte a reference that saves the most is emitted. */
  lemma ReservedPicks(c: Coder, d: seq<byte>, i: nat)
    requires c.Valid() && i < |d| && !CanEncode(d[i]) && !LongRun(d, i)
    ensures var ps := Step(c, d, i);
            |ps| == 1 && ps[0].Ref? && Most(c.dict, d, i, Gain(ps[0].kind, ps[0].len))
            && RefSaving(c.dict, d, i, Gain(ps[0].kind, ps[0].len), ps[0])
  {
    hide BestRef, RunFrom, Savings, HasGain, Most, Gain, IsRef;
    RunIff(d, i);
    BestMeans(c, d, i);
    MostOfBest(c.dict, d, i);
    GainIsSavings(BestRef(c.dict, d, i));
  }

  // ----- Long runs -----

  /** What comes before the copy of a run: nothing if the byte before it serves, otherwise the
      byte itself, a reserved one from its place in the dictionary. */
  ghost predicate RunStart(c: Coder, d: seq<byte>, i: nat, ps: seq<Phrase>)
    requires c.Valid() && i < |d|
  {
    if i > 0 && d[i - 1] == d[i] then ps == []
    else if CanEncode(d[i]) then ps == [Literal(d[i])]
    else ps == [Ref(Dynamic, i + |c.dict| - c.reserved[d[i]], 1)]
  }

  /** The length of the run is `count`: equal bytes, not more than 256 of them, and no more to
      come unless there are 256. */
  ghost predicate RunLength(d: seq<byte>, i: nat, count: nat)
  {
    && i < |d| && i + count <= |d| && count <= 256 && (forall k :: i <= k < i + count ==> d[k] == d[i])
    && (count < 256 && i + count < |d| ==> d[i + count] != d[i])
  }

  /** A run of 160 bytes or more is copied from one byte back, by a short reference. */
  lemma RunPicks(c: Coder, d: seq<byte>, i: nat, count: nat)
    requires c.Valid() && LongRun(d, i) && RunLength(d, i, count)
    ensures var ps := Step(c, d, i);
            |ps| >= 1 && var lead := ps[..|ps| - 1];
            |lead| <= 1 && RunStart(c, d, i, lead) && ps[|lead|] == Ref(Short, 1, count - |lead|)
  {
    hide RunFrom, BestRef;
    RunIff(d, i);
    var n := RunFrom(d, i, 0);
    RunLengthUnique(d, i, count, n);
    var lead := RunLead(c, d, i);
    var k := i + |lead|;
    ShortSavesMore(|c.dict|, k, count - |lead|);
    assert Step(c, d, i)[..|lead|] == lead;
  }

  lemma RunLengthUnique(d: seq<byte>, i: nat, m: nat, n: nat)
    requires RunLength(d, i, m) && RunLength(d, i, n)
    ensures m == n
  {
  }

  lemma ShortSavesMore(dictLen: nat, i: nat, len: nat)
    requires 0 < i && 0 < len
    ensures RunRef(dictLen, i, len) == Backref(Short, i - 1, len, 0)
  {
  }
}
