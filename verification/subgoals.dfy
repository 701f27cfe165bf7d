/** Sub-goal ordering and visibility on the home page's goal cards
    (main/static/js/components/index-subgoals.js).

    The cards list open sub-goals first and completed ones after, keeping
    the original order within each group (the comparator returns 0 for equal
    status and `Array.prototype.sort` is stable). A collapsed card shows its
    first three entries and a "+N more" indicator for the rest. */
module Subgoals {
  import opened Wrappers

  datatype Subgoal = Subgoal(id: nat, completed: bool, hidden: bool)

  /** The open sub-goals, in list order. */
  function Open(s: seq<Subgoal>): (r: seq<Subgoal>)
    ensures |r| <= |s|
  {
    if |s| == 0 then []
    else (if !s[0].completed then [s[0]] else []) + Open(s[1..])
  }

  /** The completed sub-goals, in list order. */
  function Done(s: seq<Subgoal>): (r: seq<Subgoal>)
    ensures |r| <= |s|
  {
    if |s| == 0 then []
    else (if s[0].completed then [s[0]] else []) + Done(s[1..])
  }

  /** `Open` keeps exactly the open entries. */
  lemma {:induction false} OpenMembers(s: seq<Subgoal>)
    ensures forall x :: x in Open(s) <==> x in s && !x.completed
    decreases |s|
  {
    if |s| > 0 {
      OpenMembers(s[1..]);
      assert s == [s[0]] + s[1..];
    }
  }

  /** `Done` keeps exactly the completed entries. */
  lemma {:induction false} DoneMembers(s: seq<Subgoal>)
    ensures forall x :: x in Done(s) <==> x in s && x.completed
    decreases |s|
  {
    if |s| > 0 {
      DoneMembers(s[1..]);
      assert s == [s[0]] + s[1..];
    }
  }

  /** The sort comparator: `aCompleted - bCompleted`. */
  function Compare(a: Subgoal, b: Subgoal): int
  {
    (if a.completed then 1 else 0) - (if b.completed then 1 else 0)
  }

  /** No completed sub-goal comes before an open one. */
  predicate Partitioned(s: seq<Subgoal>)
  {
    forall i, j :: 0 <= i < j < |s| ==> Compare(s[i], s[j]) <= 0
  }

  /** The order both `sortSubgoalsInGoalCard` and its quick variant produce. */
  function SortByCompletion(s: seq<Subgoal>): (r: seq<Subgoal>)
    ensures Partitioned(r)
    ensures multiset(r) == multiset(s)
    ensures Open(r) == Open(s) && Done(r) == Done(s)
    ensures |r| == |s|
  {
    OpenDoneSplit(s);
    OpenAppend(Open(s), Done(s));
    DoneAppend(Open(s), Done(s));
    assert |multiset(Open(s) + Done(s))| == |multiset(s)|;
    OpenOfOpen(s);
    DoneOfDone(s);
    OpenOfDone(s);
    DoneOfOpen(s);
    Open(s) + Done(s)
  }

  lemma {:induction false} OpenAppend(a: seq<Subgoal>, b: seq<Subgoal>)
    ensures Open(a + b) == Open(a) + Open(b)
    decreases |a|
  {
    if |a| == 0 {
      assert a + b == b;
    } else {
      assert (a + b)[0] == a[0];
      assert (a + b)[1..] == a[1..] + b;
      OpenAppend(a[1..], b);
    }
  }

  lemma {:induction false} DoneAppend(a: seq<Subgoal>, b: seq<Subgoal>)
    ensures Done(a + b) == Done(a) + Done(b)
    decreases |a|
  {
    if |a| == 0 {
      assert a + b == b;
    } else {
      assert (a + b)[0] == a[0];
      assert (a + b)[1..] == a[1..] + b;
      DoneAppend(a[1..], b);
    }
  }

  lemma OpenOfOpen(s: seq<Subgoal>)
    ensures Open(Open(s)) == Open(s)
  {
    if |s| > 0 {
      OpenOfOpen(s[1..]);
      OpenAppend(if !s[0].completed then [s[0]] else [], Open(s[1..]));
    }
  }

  lemma DoneOfDone(s: seq<Subgoal>)
    ensures Done(Done(s)) == Done(s)
  {
    if |s| > 0 {
      DoneOfDone(s[1..]);
      DoneAppend(if s[0].completed then [s[0]] else [], Done(s[1..]));
    }
  }

  lemma OpenOfDone(s: seq<Subgoal>)
    ensures Open(Done(s)) == []
  {
    if |s| > 0 {
      OpenOfDone(s[1..]);
      OpenAppend(if s[0].completed then [s[0]] else [], Done(s[1..]));
    }
  }

  lemma DoneOfOpen(s: seq<Subgoal>)
    ensures Done(Open(s)) == []
  {
    if |s| > 0 {
      DoneOfOpen(s[1..]);
      DoneAppend(if !s[0].completed then [s[0]] else [], Open(s[1..]));
    }
  }

  /** Splitting into open and done entries loses and invents nothing, and
      the open-then-done order is partitioned. */
  lemma OpenDoneSplit(s: seq<Subgoal>)
    ensures multiset(Open(s)) + multiset(Done(s)) == multiset(s)
    ensures Partitioned(Open(s) + Done(s))
  {
    OpenDoneMultiset(s);
    var r := Open(s) + Done(s);
    OpenMembers(s);
    DoneMembers(s);
    forall i, j | 0 <= i < j < |r|
      ensures Compare(r[i], r[j]) <= 0
    {
      if i < |Open(s)| {
        assert r[i] in Open(s);
      } else {
        assert r[i] in Done(s) && r[j] in Done(s);
      }
    }
  }

  /** The open and the done entries together are the list's entries. */
  lemma {:induction false} OpenDoneMultiset(s: seq<Subgoal>)
    ensures multiset(Open(s)) + multiset(Done(s)) == multiset(s)
    decreases |s|
  {
    if |s| > 0 {
      var t := s[1..];
      OpenDoneMultiset(t);
      assert s == [s[0]] + t;
      assert multiset(s) == multiset{s[0]} + multiset(t);
      if s[0].completed {
        assert Open(s) == Open(t);
        assert Done(s) == [s[0]] + Done(t);
      } else {
        assert Open(s) == [s[0]] + Open(t);
        assert Done(s) == Done(t);
      }
    }
  }

  /** An already partitioned list is split back into itself. */
  lemma {:induction false} PartitionedIsFixed(s: seq<Subgoal>)
    requires Partitioned(s)
    ensures Open(s) + Done(s) == s
    decreases |s|
  {
    if |s| > 0 {
      var t := s[1..];
      PartitionedTail(s);
      PartitionedIsFixed(t);
      if s[0].completed {
        AfterDoneAllDone(s);
        AllDone(t);
        assert Open(s) == [] && Done(s) == [s[0]] + t;
      } else {
        assert Open(s) == [s[0]] + Open(t) && Done(s) == Done(t);
        assert Open(s) + Done(s) == [s[0]] + (Open(t) + Done(t));
      }
      assert s == [s[0]] + t;
    }
  }

  /** Everything after a completed entry of a partitioned list is completed. */
  lemma AfterDoneAllDone(s: seq<Subgoal>)
    requires |s| > 0 && Partitioned(s) && s[0].completed
    ensures forall k :: 0 <= k < |s[1..]| ==> s[1..][k].completed
  {
    forall k | 0 <= k < |s[1..]|
      ensures s[1..][k].completed
    {
      assert Compare(s[0], s[k + 1]) <= 0;
    }
  }

  lemma PartitionedTail(s: seq<Subgoal>)
    requires |s| > 0 && Partitioned(s)
    ensures Partitioned(s[1..])
  {
    var t := s[1..];
    forall i, j | 0 <= i < j < |t|
      ensures Compare(t[i], t[j]) <= 0
    {
      assert t[i] == s[i + 1] && t[j] == s[j + 1];
    }
  }

  lemma {:induction false} AllDone(s: seq<Subgoal>)
    requires forall k :: 0 <= k < |s| ==> s[k].completed
    ensures Open(s) == [] && Done(s) == s
    decreases |s|
  {
    if |s| > 0 {
      AllDone(s[1..]);
      assert s == [s[0]] + s[1..];
    }
  }

  /** `needsAnimation`: the sorted order differs from the current one. */
  predicate NeedsAnimation(s: seq<Subgoal>)
  {
    SortByCompletion(s) != s
  }

  /** The sort moves nothing exactly when the list is already partitioned. */
  lemma NoAnimationIffPartitioned(s: seq<Subgoal>)
    ensures !NeedsAnimation(s) <==> Partitioned(s)
  {
    if Partitioned(s) {
      PartitionedIsFixed(s);
    }
  }

  /** Sorting twice is sorting once. */
  lemma SortIdempotent(s: seq<Subgoal>)
    ensures SortByCompletion(SortByCompletion(s)) == SortByCompletion(s)
  {
    PartitionedIsFixed(SortByCompletion(s));
  }

  /** Number of visible entries of a collapsed card. */
  const VisibleLimit: nat := 3

  /** `managSubgoalsVisibility` on the entries: a collapsed card hides every
      entry from position 3 on and shows the first three; an expanded card
      is left as it is. */
  function ApplyVisibility(s: seq<Subgoal>, expanded: bool): (r: seq<Subgoal>)
    ensures |r| == |s|
    ensures forall i :: 0 <= i < |s| ==> r[i].id == s[i].id && r[i].completed == s[i].completed
    ensures expanded ==> r == s
    ensures !expanded ==> forall i :: 0 <= i < |s| ==> (r[i].hidden <==> i >= VisibleLimit)
  {
    if expanded then s
    else seq(|s|, i requires 0 <= i < |s| => s[i].(hidden := i >= VisibleLimit))
  }

  /** The "+N more" indicator: whether it shows and the count in its text. */
  datatype MoreIndicator = MoreIndicator(shown: bool, count: nat)

  /** The indicator update of `managSubgoalsVisibility`: on a collapsed card
      with an indicator, it shows `n - 3` when that is positive and is hidden
      otherwise (keeping its old text); an expanded card, or a card without an
      indicator, is untouched. */
  function UpdateIndicator(ind: Option<MoreIndicator>, n: nat, expanded: bool): (r: Option<MoreIndicator>)
    ensures r.Some? <==> ind.Some?
    ensures expanded ==> r == ind
    ensures !expanded && r.Some? ==> (r.value.shown <==> n > VisibleLimit)
    ensures !expanded && r.Some? && n > VisibleLimit ==> r.value.count == n - VisibleLimit
  {
    match ind
    case None => None
    case Some(m) =>
      if expanded then ind
      else if n > VisibleLimit then Some(MoreIndicator(true, n - VisibleLimit))
      else Some(m.(shown := false))
  }

  /** Number of hidden entries. */
  function HiddenCount(s: seq<Subgoal>): (n: nat)
    ensures n <= |s|
  {
    if |s| == 0 then 0 else (if s[0].hidden then 1 else 0) + HiddenCount(s[1..])
  }

  /** On a collapsed card the indicator's count is the number of entries the
      same pass hid. */
  lemma IndicatorCountsHidden(s: seq<Subgoal>, ind: MoreIndicator)
    requires |s| > VisibleLimit
    ensures UpdateIndicator(Some(ind), |s|, false).value.count == HiddenCount(ApplyVisibility(s, false))
  {
    HiddenFromPosition(ApplyVisibility(s, false), VisibleLimit);
  }

  lemma {:induction false} HiddenFromPosition(s: seq<Subgoal>, k: nat)
    requires k <= |s|
    requires forall i :: 0 <= i < |s| ==> (s[i].hidden <==> i >= k)
    ensures HiddenCount(s) == |s| - k
    decreases |s|
  {
    if |s| > 0 {
      var t := s[1..];
      if k == 0 {
        HiddenFromPosition(t, 0);
      } else {
        assert forall i :: 0 <= i < |t| ==> (t[i].hidden <==> i >= k - 1) by {
          forall i | 0 <= i < |t| ensures t[i].hidden <==> i >= k - 1 {
            assert t[i] == s[i + 1];
          }
        }
        HiddenFromPosition(t, k - 1);
      }
    }
  }

  /** In the sorted list the first `|Open(s)|` entries are the open ones. */
  lemma SortedPositions(s: seq<Subgoal>)
    ensures var sorted := SortByCompletion(s);
      forall i :: 0 <= i < |sorted| ==> (sorted[i].completed <==> i >= |Open(s)|)
  {
    var sorted := SortByCompletion(s);
    var o, d := Open(s), Done(s);
    OpenMembers(s);
    DoneMembers(s);
    forall i | 0 <= i < |sorted|
      ensures sorted[i].completed <==> i >= |o|
    {
      if i < |o| {
        assert sorted[i] == o[i] && o[i] in o;
      } else {
        assert sorted[i] == d[i - |o|] && d[i - |o|] in d;
      }
    }
  }

  /** `sortSubgoalsInGoalCardQuick`: sort, then apply the visibility rule. */
  function SortAndShow(s: seq<Subgoal>, expanded: bool): (r: seq<Subgoal>)
    ensures |r| == |s|
    ensures forall i :: 0 <= i < |r| ==> (r[i].completed <==> i >= |Open(s)|)
    ensures !expanded ==> forall i :: 0 <= i < |r| ==> (r[i].hidden <==> i >= VisibleLimit)
  {
    var sorted := SortByCompletion(s);
    SortedPositions(s);
    ApplyVisibility(sorted, expanded)
  }

  /** On a collapsed card a completed sub-goal is visible only when fewer
      than three sub-goals are open: the three visible places go to open
      sub-goals first. */
  lemma VisibleDoneMeansFewOpen(s: seq<Subgoal>, i: nat)
    requires i < |s|
    requires SortAndShow(s, false)[i].completed && !SortAndShow(s, false)[i].hidden
    ensures |Open(s)| < VisibleLimit
  {
    var sorted := SortByCompletion(s);
    OpenDoneSplit(s);
    OpenMembers(s);
    assert i < VisibleLimit;
    assert sorted[i].completed;
  }

  /** `moveCompletedSubgoalToBottom`'s decision: on a collapsed card the
      just-completed entry at `k` is hidden when at least three other entries
      are still open. */
  predicate ShouldHideCompleted(s: seq<Subgoal>, k: nat, expanded: bool)
    requires k < |s|
  {
    !expanded && |Open(s[..k] + s[k + 1..])| >= VisibleLimit
  }

  /** `moveCompletedSubgoalToBottom` on the entries: the entry at `k` moves
      to the end (just before the indicator), the others keep their order, and
      it is hidden when the decision above says so. */
  function MoveCompletedToBottom(s: seq<Subgoal>, k: nat, expanded: bool): (r: seq<Subgoal>)
    requires k < |s|
    ensures |r| == |s|
    ensures r[..|s| - 1] == s[..k] + s[k + 1..]
    ensures r[|s| - 1].id == s[k].id && r[|s| - 1].completed == s[k].completed
    ensures r[|s| - 1].hidden <==> s[k].hidden || ShouldHideCompleted(s, k, expanded)
  {
    var moved := s[k].(hidden := s[k].hidden || ShouldHideCompleted(s, k, expanded));
    var r := s[..k] + s[k + 1..] + [moved];
    assert r[..|s| - 1] == s[..k] + s[k + 1..];
    r
  }

  lemma {:induction false} HiddenCountAppend(a: seq<Subgoal>, b: seq<Subgoal>)
    ensures HiddenCount(a + b) == HiddenCount(a) + HiddenCount(b)
    decreases |a|
  {
    if |a| == 0 {
      assert a + b == b;
    } else {
      assert (a + b)[0] == a[0];
      assert (a + b)[1..] == a[1..] + b;
      HiddenCountAppend(a[1..], b);
    }
  }

  /** Taking the entry at `k` out and appending `m` changes the hidden count
      by the two entries' hidden flags. */
  lemma HiddenAfterMove(s: seq<Subgoal>, k: nat, m: Subgoal)
    requires k < |s|
    ensures HiddenCount(s[..k] + s[k + 1..] + [m]) + (if s[k].hidden then 1 else 0)
      == HiddenCount(s) + (if m.hidden then 1 else 0)
  {
    HiddenSplit(s, k);
    HiddenAppendOne(s[..k] + s[k + 1..], m);
    HiddenCountAppend(s[..k], s[k + 1..]);
  }

  lemma HiddenSplit(s: seq<Subgoal>, k: nat)
    requires k < |s|
    ensures HiddenCount(s) == HiddenCount(s[..k]) + (if s[k].hidden then 1 else 0) + HiddenCount(s[k + 1..])
  {
    var a, b := s[..k], s[k + 1..];
    assert s == (a + [s[k]]) + b;
    HiddenCountAppend(a + [s[k]], b);
    HiddenAppendOne(a, s[k]);
  }

  lemma HiddenAppendOne(a: seq<Subgoal>, m: Subgoal)
    ensures HiddenCount(a + [m]) == HiddenCount(a) + (if m.hidden then 1 else 0)
  {
    HiddenCountAppend(a, [m]);
    HiddenCountSingle(m);
  }

  lemma HiddenCountSingle(x: Subgoal)
    ensures HiddenCount([x]) == if x.hidden then 1 else 0
  {
    assert [x][1..] == [];
  }

  /** The indicator text after the move as `moveCompletedSubgoalToBottom`
      writes it: the moved entry already carries the hidden class when the
      hidden entries are counted, and one more is added for it. */
  function IndicatorAfterMoveAsWritten(s: seq<Subgoal>, k: nat, expanded: bool, ind: Option<MoreIndicator>): (r: Option<MoreIndicator>)
    requires k < |s|
    ensures r.Some? <==> ind.Some?
    ensures !ShouldHideCompleted(s, k, expanded) ==> r == ind
  {
    if ShouldHideCompleted(s, k, expanded) && ind.Some? then
      Some(MoreIndicator(true, HiddenCount(MoveCompletedToBottom(s, k, expanded)) + 1))
    else ind
  }

  /** Whenever the moved entry is hidden, the written indicator claims one
      hidden entry more than the card has. */
  lemma AsWrittenIndicatorOvercounts(s: seq<Subgoal>, k: nat, ind: MoreIndicator)
    requires k < |s| && ShouldHideCompleted(s, k, false)
    ensures IndicatorAfterMoveAsWritten(s, k, false, Some(ind)).value.count
      == HiddenCount(MoveCompletedToBottom(s, k, false)) + 1
  {
  }

  /** Four open sub-goals on a collapsed card, the fourth hidden: completing
      the first hides it, two entries are hidden, and the text says "+3". */
  lemma AsWrittenIndicatorExample()
    ensures var s := [Subgoal(1, true, false), Subgoal(2, false, false), Subgoal(3, false, false), Subgoal(4, false, true)];
      var r := MoveCompletedToBottom(s, 0, false);
      && HiddenCount(r) == 2
      && IndicatorAfterMoveAsWritten(s, 0, false, Some(MoreIndicator(true, 1))) == Some(MoreIndicator(true, 3))
  {
    var s := [Subgoal(1, true, false), Subgoal(2, false, false), Subgoal(3, false, false), Subgoal(4, false, true)];
    var others := [s[1], s[2], s[3]];
    assert s[..0] + s[1..] == others;
    assert others[1..] == [s[2], s[3]] && others[1..][1..] == [s[3]];
    assert Open([s[3]]) == [s[3]] by { assert [s[3]][1..] == []; }
    assert Open([s[2], s[3]]) == [s[2], s[3]];
    assert Open(others) == others;
    assert s[1..] == others && s[1..][1..] == others[1..] && s[1..][1..][1..] == [s[3]];
    assert HiddenCount(s) == 1;
    var r := MoveCompletedToBottom(s, 0, false);
    assert r == others + [r[3]];
    HiddenAfterMove(s, 0, r[3]);
  }

  /** The indicator after the move counting each hidden entry once: when the
      moved entry is hidden, the indicator shows and its count is the number
      of hidden entries on the card. */
  function IndicatorAfterMove(s: seq<Subgoal>, k: nat, expanded: bool, ind: Option<MoreIndicator>): (r: Option<MoreIndicator>)
    requires k < |s|
    ensures r.Some? <==> ind.Some?
    ensures !ShouldHideCompleted(s, k, expanded) ==> r == ind
    ensures ShouldHideCompleted(s, k, expanded) && r.Some? ==>
      r.value.shown && r.value.count == HiddenCount(MoveCompletedToBottom(s, k, expanded))
  {
    var r := MoveCompletedToBottom(s, k, expanded);
    assert r == s[..k] + s[k + 1..] + [r[|s| - 1]];
    HiddenAfterMove(s, k, r[|s| - 1]);
    if ShouldHideCompleted(s, k, expanded) && ind.Some? then
      Some(MoreIndicator(true, HiddenCount(s) + (if s[k].hidden then 0 else 1)))
    else ind
  }

  /** `moveSubgoalBackToVisible`: an unchecked entry is shown again on an
      expanded card, or on a collapsed card when at most three entries
      (itself included) are open; otherwise it stays as it was. */
  function MoveBackToVisible(s: seq<Subgoal>, k: nat, expanded: bool): (r: seq<Subgoal>)
    requires k < |s|
    ensures |r| == |s|
    ensures forall i :: 0 <= i < |s| && i != k ==> r[i] == s[i]
    ensures r[k].id == s[k].id && r[k].completed == s[k].completed
    ensures (expanded || |Open(s)| <= VisibleLimit) ==> !r[k].hidden
    ensures !(expanded || |Open(s)| <= VisibleLimit) ==> r[k] == s[k]
  {
    if expanded || |Open(s)| <= VisibleLimit then s[k := s[k].(hidden := false)]
    else s
  }

  /** The indicator after `moveSubgoalBackToVisible` shows the entry on a
      collapsed card: shown with the number of entries still hidden when
      there are any, hidden otherwise; in every other case untouched. */
  function IndicatorAfterReturn(s: seq<Subgoal>, k: nat, expanded: bool, ind: Option<MoreIndicator>): (r: Option<MoreIndicator>)
    requires k < |s|
    ensures r.Some? <==> ind.Some?
    ensures (expanded || |Open(s)| > VisibleLimit) ==> r == ind
    ensures !expanded && |Open(s)| <= VisibleLimit && r.Some? ==>
      var after := MoveBackToVisible(s, k, expanded);
      (r.value.shown <==> HiddenCount(after) > 0) &&
      (HiddenCount(after) > 0 ==> r.value.count == HiddenCount(after))
  {
    if expanded || |Open(s)| > VisibleLimit || ind.None? then ind
    else
      var n := HiddenCount(MoveBackToVisible(s, k, expanded));
      if n > 0 then Some(MoreIndicator(true, n)) else Some(ind.value.(shown := false))
  }
}
