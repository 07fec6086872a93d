/** Windows into integer arrays, with Go's rule that several windows may look at
    one array. Writes go through `Set`, which says what other windows do not notice. */
module Slices {
  /** What a cell can hold. */
  type int32 = v: int | -0x8000_0000 <= v < 0x8000_0000

  datatype Slice = Slice(arr: array<int32>, off: nat, len: nat)
  {
    ghost predicate Valid()
    {
      off + len <= arr.Length
    }

    ghost function View(): (s: seq<int>)
      requires Valid()
      reads arr
      ensures |s| == len
    {
      arr[off..off + len]
    }

    function Get(i: int): (v: int32)
      requires Valid() && 0 <= i < len
      reads arr
      ensures v == View()[i]
    {
      arr[off + i]
    }

    function Sub(lo: int, hi: int): (s: Slice)
      requires 0 <= lo <= hi <= len
      ensures s.arr == arr && s.len == hi - lo && (Valid() ==> s.Valid())
    {
      Slice(arr, off + lo, hi - lo)
    }

    method Set(i: int, v: int32, ghost keep: set<Slice>)
      requires Valid() && 0 <= i < len && Apart(this, keep)
      modifies arr
      ensures View() == old(View())[i := v]
      ensures forall u :: u in keep ==> u.View() == old(u.View())
    {
      arr[off + i] := v;
      assert View() == old(View())[i := v];
      forall u | u in keep ensures u.View() == old(u.View()) {
        assert Disjoint(this, u);
      }
    }
  }

  ghost predicate Disjoint(a: Slice, b: Slice)
  {
    a.arr != b.arr || a.off + a.len <= b.off || b.off + b.len <= a.off
  }

  /** None of the windows in `keep` overlaps `s`. */
  ghost predicate Apart(s: Slice, keep: set<Slice>)
  {
    forall u :: u in keep ==> u.Valid() && Disjoint(s, u)
  }
}
