/** The "k/T" line of the output screens. */
module Numbering {
  import opened Decoder
  import opened Review
  import opened Safety

  /** The indices below `n` listed as change. */
  function ChangeSet(changes: seq<Change>, n: nat): set<nat> {
    set k | 0 <= k < n && IsChangeIndex(changes, k)
  }

  predicate Distinct(changes: seq<Change>) {
    forall i, j :: 0 <= i < j < |changes| ==> changes[i].index != changes[j].index
  }

  predicate AllBelow(changes: seq<Change>, n: nat) {
    forall i :: 0 <= i < |changes| ==> changes[i].index < n
  }

  /** How many entries name index `k`. */
  function Multiplicity(changes: seq<Change>, k: nat): nat {
    if changes == [] then 0
    else (if changes[0].index == k then 1 else 0) + Multiplicity(changes[1..], k)
  }

  lemma {:induction false} MultiplicityMeaning(changes: seq<Change>, k: nat)
    ensures Multiplicity(changes, k) > 0 <==> IsChangeIndex(changes, k)
    decreases |changes|
  {
    if changes == [] {
    } else {
      MultiplicityMeaning(changes[1..], k);
      if IsChangeIndex(changes[1..], k) {
        var i :| 0 <= i < |changes[1..]| && changes[1..][i].index == k;
        assert changes[i + 1].index == k;
      }
      if IsChangeIndex(changes, k) && changes[0].index != k {
        var i :| 0 <= i < |changes| && changes[i].index == k;
        assert changes[1..][i - 1].index == k;
      }
    }
  }

  lemma {:induction false} CountBelowNext(changes: seq<Change>, k: nat)
    ensures CountBelow(changes, k + 1) == CountBelow(changes, k) + Multiplicity(changes, k)
    decreases |changes|
  {
    if changes == [] {
    } else {
      CountBelowNext(changes[1..], k);
    }
  }

  lemma {:induction false} CountBelowZero(changes: seq<Change>)
    ensures CountBelow(changes, 0) == 0
    decreases |changes|
  {
    if changes == [] {
    } else {
      CountBelowZero(changes[1..]);
    }
  }

  lemma ChangeSetNext(changes: seq<Change>, n: nat)
    ensures ChangeSet(changes, n + 1)
         == ChangeSet(changes, n) + if IsChangeIndex(changes, n) then {n} else {}
    ensures |ChangeSet(changes, n + 1)|
         == |ChangeSet(changes, n)| + if IsChangeIndex(changes, n) then 1 else 0
  {
    assert ChangeSet(changes, n + 1)
        == ChangeSet(changes, n) + if IsChangeIndex(changes, n) then {n} else {};
  }

  /** A run shows as many output screens as there are outputs not listed as change. */
  lemma {:induction false} ScreenCount(changes: seq<Change>, outputsLen: nat, outs: seq<Output>)
    ensures |Screens(changes, outputsLen, outs)| == |outs| - |ChangeSet(changes, |outs|)|
    decreases |outs|
  {
    if outs == [] {
      assert ChangeSet(changes, 0) == {};
    } else {
      ScreenCount(changes, outputsLen, outs[..|outs| - 1]);
      ChangeSetNext(changes, |outs| - 1);
    }
  }

  /** Entries below `n` are at least the distinct indices below `n`, and as many only if no two
      of them coincide. */
  lemma {:induction false} CountVersusSet(changes: seq<Change>, n: nat)
    ensures |ChangeSet(changes, n)| <= CountBelow(changes, n)
    ensures |ChangeSet(changes, n)| == CountBelow(changes, n)
       <==> forall k :: 0 <= k < n ==> Multiplicity(changes, k) <= 1
    decreases n
  {
    if n == 0 {
      CountBelowZero(changes);
      assert ChangeSet(changes, 0) == {};
    } else {
      CountVersusSet(changes, n - 1);
      CountBelowNext(changes, n - 1);
      ChangeSetNext(changes, n - 1);
      MultiplicityMeaning(changes, n - 1);
    }
  }

  lemma {:induction false} DistinctMeaning(changes: seq<Change>)
    ensures Distinct(changes) <==> forall k: nat :: Multiplicity(changes, k) <= 1
    decreases |changes|
  {
    if changes == [] {
    } else {
      var tail := changes[1..];
      DistinctMeaning(tail);
      MultiplicityMeaning(tail, changes[0].index);
      assert Distinct(changes) <==> Distinct(tail) && !IsChangeIndex(tail, changes[0].index) by {
        if Distinct(tail) && !IsChangeIndex(tail, changes[0].index) {
          forall i, j | 0 <= i < j < |changes| ensures changes[i].index != changes[j].index {
            assert changes[j] == tail[j - 1];
            if i > 0 { assert changes[i] == tail[i - 1]; }
          }
        }
        if Distinct(changes) {
          forall i, j | 0 <= i < j < |tail| ensures tail[i].index != tail[j].index {
            assert tail[i] == changes[i + 1] && tail[j] == changes[j + 1];
          }
        }
      }
      if Distinct(changes) {
        forall k: nat ensures Multiplicity(changes, k) <= 1 {
          assert Multiplicity(tail, k) <= 1;
        }
      } else if Distinct(tail) {
        var k: nat := changes[0].index;
        assert Multiplicity(tail, k) > 0;
        assert Multiplicity(changes, k) == 1 + Multiplicity(tail, k);
        assert exists k: nat :: Multiplicity(changes, k) > 1;
      } else {
        var k: nat :| Multiplicity(tail, k) > 1;
        assert Multiplicity(changes, k) > 1;
      }
    }
  }

  lemma {:induction false} CountBelowAll(changes: seq<Change>, n: nat)
    ensures CountBelow(changes, n) == |changes| <==> AllBelow(changes, n)
    decreases |changes|
  {
    if changes == [] {
    } else {
      CountBelowAll(changes[1..], n);
      assert AllBelow(changes, n) <==> changes[0].index < n && AllBelow(changes[1..], n) by {
        if changes[0].index < n && AllBelow(changes[1..], n) {
          forall i | 0 <= i < |changes| ensures changes[i].index < n {
            if i > 0 { assert changes[i] == changes[1..][i - 1]; }
          }
        }
        if AllBelow(changes, n) {
          forall i | 0 <= i < |changes[1..]| ensures changes[1..][i].index < n {
            assert changes[1..][i] == changes[i + 1];
          }
        }
      }
    }
  }

  /** The output queued at position `k` of a transaction carries index `k`. */
  predicate Indexed(outs: seq<Output>) {
    forall i :: 0 <= i < |outs| ==> outs[i].index == i
  }

  /** The screens are numbered 1, 2, 3, ... without gap or repeat. */
  predicate NumberedFromOne(screens: seq<Prompt>) {
    forall i :: 0 <= i < |screens| ==> screens[i].ShowOutput? && screens[i].number == i + 1
  }

  lemma NoScreens(changes: seq<Change>, outputsLen: nat)
    ensures Screens(changes, outputsLen, []) == []
  {
  }

  /** The next output is listed as change or gets the next number. */
  lemma NextScreen(changes: seq<Change>, outputsLen: nat, outs: seq<Output>)
    requires Distinct(changes) && outs != [] && outs[|outs| - 1].index == |outs| - 1 < 255
    ensures var before, now := Screens(changes, outputsLen, outs[..|outs| - 1]), Screens(changes, outputsLen, outs);
            now == before
            || exists p :: now == before + [p] && p.ShowOutput? && p.number == |before| + 1
  {
    var n := |outs| - 1;
    ScreenCount(changes, outputsLen, outs[..n]);
    DistinctMeaning(changes);
    CountVersusSet(changes, n);
    hide ChangeSet, Distinct, CountBelow, Multiplicity, IsChangeIndex;
    var p := Screen(changes, outputsLen, outs[n]);
    assert p.number == |Screens(changes, outputsLen, outs[..n])| + 1;
  }

  lemma {:induction false} ScreensNumbered(changes: seq<Change>, outputsLen: nat, outs: seq<Output>)
    requires Distinct(changes) && Indexed(outs) && |outs| < 256
    ensures NumberedFromOne(Screens(changes, outputsLen, outs))
    decreases |outs|
  {
    hide Screens, Distinct;
    NoScreens(changes, outputsLen);
    if outs == [] {
    } else {
      var n := |outs| - 1;
      ScreensNumbered(changes, outputsLen, outs[..n]);
      NextScreen(changes, outputsLen, outs);
    }
  }

  /** The denominator is the number of screens of the whole transaction exactly if the listed
      indices are distinct and all belong to the transaction. */
  lemma TotalIsRight(changes: seq<Change>, outputsLen: nat)
    requires |changes| <= TX_MAX_TOKENS + 1 && outputsLen < 256
    ensures (outputsLen - |changes|) % 256 == outputsLen - |ChangeSet(changes, outputsLen)|
       <==> Distinct(changes) && AllBelow(changes, outputsLen)
  {
    var n := outputsLen;
    CountVersusSet(changes, n);
    CountBelowAll(changes, n);
    ChangeSetSmall(changes, n);
    assert (n - |changes|) % 256 == n - |ChangeSet(changes, n)| <==> |changes| == |ChangeSet(changes, n)|;
    if |changes| == |ChangeSet(changes, n)| {
      DistinctMeaning(changes);
      forall k: nat ensures Multiplicity(changes, k) <= 1 {
        if k >= n {
          MultiplicityMeaning(changes, k);
        }
      }
    }
    if Distinct(changes) { DistinctMeaning(changes); }
  }

  lemma {:induction false} ChangeSetSmall(changes: seq<Change>, n: nat)
    ensures |ChangeSet(changes, n)| <= n
    decreases n
  {
    if n > 0 {
      ChangeSetSmall(changes, n - 1);
      ChangeSetNext(changes, n - 1);
    } else {
      assert ChangeSet(changes, 0) == {};
    }
  }

  lemma {:induction false} ScreensTotal(changes: seq<Change>, outputsLen: nat, outs: seq<Output>)
    ensures forall i :: 0 <= i < |Screens(changes, outputsLen, outs)| ==>
              && Screens(changes, outputsLen, outs)[i].ShowOutput?
              && Screens(changes, outputsLen, outs)[i].total == (outputsLen - |changes|) % 256
    decreases |outs|
  {
    if outs == [] {
    } else {
      ScreensTotal(changes, outputsLen, outs[..|outs| - 1]);
    }
  }

  /** With distinct change indices that belong to the transaction, the screens of a whole
      transaction read 1/T, 2/T, ..., T/T. */
  lemma ScreensReadOneToT(changes: seq<Change>, outs: seq<Output>)
    requires Distinct(changes) && AllBelow(changes, |outs|) && |changes| <= TX_MAX_TOKENS + 1
    requires Indexed(outs) && |outs| < 256
    ensures var s := Screens(changes, |outs|, outs);
            forall i :: 0 <= i < |s| ==> s[i].ShowOutput? && s[i].number == i + 1 && s[i].total == |s|
  {
    ScreensNumbered(changes, |outs|, outs);
    ScreensTotal(changes, |outs|, outs);
    ScreenCount(changes, |outs|, outs);
    TotalIsRight(changes, |outs|);
  }
}
