/** The in-place sort of the change indices (`inplace_selection_sort` in src/ui/display.c). */
module SelectionSort {
  import opened Bytes
  import opened Review

  /** A rearrangement of `original` whose first `i` entries are sorted and exceed no later one. */
  predicate Selected(s: seq<byte>, i: nat, original: seq<byte>)
    requires i <= |s|
  {
    && IsSorted(s[..i]) && multiset(s) == multiset(original)
    && forall a, b :: 0 <= a < i <= b < |s| ==> s[a] <= s[b]
  }

  function Swapped(s: seq<byte>, i: nat, j: nat): (t: seq<byte>)
    requires i < |s| && j < |s|
    ensures |t| == |s|
  {
    s[i := s[j]][j := s[i]]
  }

  lemma SwapSelects(s: seq<byte>, i: nat, p: nat, original: seq<byte>)
    requires i <= p < |s| && Selected(s, i, original) && forall b :: i <= b < |s| ==> s[p] <= s[b]
    ensures Selected(Swapped(s, i, p), i + 1, original)
  {
    var t := Swapped(s, i, p);
    assert t[..i] == s[..i] && t[..i + 1] == s[..i] + [s[p]];
  }

  lemma AllSelected(s: seq<byte>, original: seq<byte>)
    requires s != [] && Selected(s, |s| - 1, original)
    ensures s == Sorted(original)
  {
    assert s == s[..|s| - 1] + [s[|s| - 1]];
    SortedUnique(s, Sorted(original));
  }

  lemma NoneSelected(s: seq<byte>)
    ensures Selected(s, 0, s)
  {
  }

  /** `inplace_selection_sort` of the first `len` entries. */
  method InplaceSelectionSort(list: array<byte>, len: nat)
    requires 0 < len <= list.Length
    modifies list
    ensures list[..len] == Sorted(old(list[..len]))
  {
    hide Sorted, Selected, Swapped;
    ghost var original := list[..len];
    NoneSelected(original);
    var i := 0;
    while i < len - 1
      invariant 0 <= i <= len - 1
      invariant Selected(list[..len], i, original)
    {
      ghost var s := list[..len];
      var position := i;
      var j := i + 1;
      while j < len
        invariant i < j <= len && i <= position < j
        invariant forall b :: i <= b < j ==> s[position] <= s[b]
      {
        if list[position] > list[j] {
          position := j;
        }
        j := j + 1;
      }
      SwapSelects(s, i, position, original);
      if position != i {
        var tmp := list[position];
        list[position] := list[i];
        list[i] := tmp;
      }
      SwapDone(s, list[..len], i, position);
      i := i + 1;
    }
    AllSelected(list[..len], original);
  }

  lemma SwapDone(s: seq<byte>, t: seq<byte>, i: nat, p: nat)
    requires i < |s| && p < |s| && |t| == |s| && t[i] == s[p] && t[p] == s[i]
    requires forall k :: 0 <= k < |s| && k != i && k != p ==> t[k] == s[k]
    ensures t == Swapped(s, i, p)
  {
  }
}
