/** The lexicographic order of the suffixes of a text, and what it means for an
    array to be the text's suffix array. A suffix is named by its start; the start
    `|t|` names the empty suffix, which plays the part of the sentinel. */
module Suffixes {

  /** Suffix `i` is strictly smaller than suffix `j`; a proper prefix is smaller. */
  ghost predicate Less(t: seq<int>, i: nat, j: nat)
    requires i <= |t| && j <= |t|
    decreases |t| - i
  {
    j < |t| && (i == |t| || t[i] < t[j] || (t[i] == t[j] && Less(t, i + 1, j + 1)))
  }

  /** `sa` lists every position of `t` exactly once, by strictly increasing suffix. */
  ghost predicate IsSuffixArray(t: seq<int>, sa: seq<int>)
  {
    && |sa| == |t|
    && (forall p :: 0 <= p < |sa| ==> 0 <= sa[p] < |t|)
    && (forall j :: 0 <= j < |t| ==> j in sa)
    && (forall p, q :: 0 <= p < q < |sa| ==> Less(t, sa[p], sa[q]))
  }

  lemma {:induction false} LessTotal(t: seq<int>, i: nat, j: nat)
    requires i <= |t| && j <= |t|
    ensures i != j ==> (Less(t, i, j) <==> !Less(t, j, i))
    ensures i == j ==> !Less(t, i, j)
    decreases |t| - i
  {
    if i < |t| && j < |t| && t[i] == t[j] {
      LessTotal(t, i + 1, j + 1);
    }
  }

  lemma {:induction false} LessTransitive(t: seq<int>, i: nat, j: nat, k: nat)
    requires i <= |t| && j <= |t| && k <= |t|
    requires Less(t, i, j) && Less(t, j, k)
    ensures Less(t, i, k)
    decreases |t| - i
  {
    if i < |t| && t[i] == t[j] == t[k] {
      LessTransitive(t, i + 1, j + 1, k + 1);
    }
  }

  /** Equal prefixes of length `e` can be dropped from both sides of a comparison. */
  lemma {:induction false} LessSkip(t: seq<int>, i: nat, j: nat, e: nat)
    requires i + e <= |t| && j + e <= |t| && t[i..i + e] == t[j..j + e]
    ensures Less(t, i, j) == Less(t, i + e, j + e)
    decreases e
  {
    if e > 0 {
      assert t[i] == t[i..i + e][0] == t[j..j + e][0] == t[j];
      assert t[i + 1..i + e] == t[i..i + e][1..] == t[j..j + e][1..] == t[j + 1..j + e];
      LessSkip(t, i + 1, j + 1, e - 1);
    }
  }

  /** The suffix array of a text is unique. */
  lemma {:induction false} SuffixArrayUnique(t: seq<int>, a: seq<int>, b: seq<int>)
    requires IsSuffixArray(t, a) && IsSuffixArray(t, b)
    ensures a == b
  {
    forall p | 0 <= p < |t| ensures a[p] == b[p] {
      SuffixArrayUniqueAt(t, a, b, p);
    }
  }

  lemma {:induction false} SuffixArrayUniqueAt(t: seq<int>, a: seq<int>, b: seq<int>, p: nat)
    requires IsSuffixArray(t, a) && IsSuffixArray(t, b) && p < |t|
    ensures a[p] == b[p]
    decreases p
  {
    forall q | 0 <= q < p ensures a[q] == b[q] {
      SuffixArrayUniqueAt(t, a, b, q);
    }
    assert b[p] in a && a[p] in b;
    var x :| 0 <= x < |a| && a[x] == b[p];
    var y :| 0 <= y < |b| && b[y] == a[p];
    LessTotal(t, a[p], b[p]);
    if x < p {
      assert b[x] == b[p];
      LessTotal(t, b[p], b[p]);
    }
    if y < p {
      assert a[y] == a[p];
      LessTotal(t, a[p], a[p]);
    }
  }
}
