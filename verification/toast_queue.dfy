/** The on-screen notification stack of staticfiles/js/notification.js.

    A notification element is named by a number. The page state is the list
    of active notifications (oldest first), the set of notification elements
    attached to the document, and the queue of pending 300 ms removal timers
    that `closeNotification` schedules. At most three notifications are shown;
    a fourth evicts the oldest at once. */
module ToastQueue {

  const MaxNotifications := 3
  const TopOffset := 20
  const StackOffset := 80
  const BaseZIndex := 10000

  datatype Page = Page(active: seq<nat>, attached: set<nat>, pending: seq<nat>)

  function Elements(q: seq<nat>): set<nat>
  {
    set x | x in q
  }

  predicate NoDup(q: seq<nat>)
  {
    forall i, j :: 0 <= i < j < |q| ==> q[i] != q[j]
  }

  /** The entries of `q` that are in `keep`, in their order. */
  function KeepIn(q: seq<nat>, keep: set<nat>): (r: seq<nat>)
    ensures |r| <= |q|
  {
    if |q| == 0 then []
    else
      var rest := KeepIn(q[1..], keep);
      if q[0] in keep then [q[0]] + rest else rest
  }

  /** The filter keeps exactly the listed entries that are in `keep`. */
  lemma {:induction false} KeepInMembers(q: seq<nat>, keep: set<nat>)
    ensures forall x :: x in KeepIn(q, keep) <==> x in q && x in keep
    decreases |q|
  {
    if |q| > 0 {
      KeepInMembers(q[1..], keep);
      assert forall x :: x in q <==> x == q[0] || x in q[1..];
    }
  }

  /** The filter creates no repeats. */
  lemma {:induction false} KeepInNoDup(q: seq<nat>, keep: set<nat>)
    requires NoDup(q)
    ensures NoDup(KeepIn(q, keep))
    decreases |q|
  {
    if |q| > 0 {
      var t := q[1..];
      assert forall i :: 0 <= i < |t| ==> t[i] == q[i + 1];
      KeepInNoDup(t, keep);
      if q[0] in keep {
        KeepInMembers(t, keep);
        assert q[0] !in t by {
          forall i | 0 <= i < |t|
            ensures t[i] != q[0]
          {
            assert q[i + 1] != q[0];
          }
        }
        var rest := KeepIn(t, keep);
        var r := [q[0]] + rest;
        forall i, j | 0 <= i < j < |r|
          ensures r[i] != r[j]
        {
          if i == 0 {
            assert r[j] == rest[j - 1];
            assert rest[j - 1] in rest;
          } else {
            assert r[i] == rest[i - 1] && r[j] == rest[j - 1];
          }
        }
      }
    }
  }

  lemma {:induction false} KeepInAppend(a: seq<nat>, b: seq<nat>, keep: set<nat>)
    ensures KeepIn(a + b, keep) == KeepIn(a, keep) + KeepIn(b, keep)
    decreases |a|
  {
    if |a| == 0 {
      assert a + b == b;
    } else {
      assert (a + b)[0] == a[0];
      assert (a + b)[1..] == a[1..] + b;
      KeepInAppend(a[1..], b, keep);
    }
  }

  /** `activeNotifications.filter(n => n !== notification)`. */
  function Without(q: seq<nat>, id: nat): seq<nat>
  {
    KeepIn(q, Elements(q) - {id})
  }

  /** Dropping one entry of a list without repeats removes just that
      entry and keeps the order of the others. */
  lemma WithoutRemovesOne(q: seq<nat>, k: nat)
    requires NoDup(q) && k < |q|
    ensures Without(q, q[k]) == q[..k] + q[k + 1..]
  {
    var keep := Elements(q) - {q[k]};
    forall i | 0 <= i < |q| && i != k
      ensures q[i] in keep
    {
      assert q[i] != q[k];
    }
    KeepAllBut(q, k, keep);
  }

  /** Filtering with a set that holds every entry but the one at `k` drops
      exactly that position. */
  lemma {:induction false} KeepAllBut(q: seq<nat>, k: nat, keep: set<nat>)
    requires k < |q| && q[k] !in keep
    requires forall i :: 0 <= i < |q| && i != k ==> q[i] in keep
    ensures KeepIn(q, keep) == q[..k] + q[k + 1..]
    decreases k
  {
    var t := q[1..];
    if k == 0 {
      KeepEvery(t, keep);
      assert KeepIn(q, keep) == KeepIn(t, keep);
    } else {
      assert forall i :: 0 <= i < |t| && i != k - 1 ==> t[i] == q[i + 1];
      KeepAllBut(t, k - 1, keep);
      assert KeepIn(q, keep) == [q[0]] + KeepIn(t, keep);
      assert q[..k] == [q[0]] + t[..k - 1];
      assert q[k + 1..] == t[k..];
    }
  }

  /** Filtering with a set that holds every entry keeps the list. */
  lemma {:induction false} KeepEvery(q: seq<nat>, keep: set<nat>)
    requires forall i :: 0 <= i < |q| ==> q[i] in keep
    ensures KeepIn(q, keep) == q
    decreases |q|
  {
    if |q| > 0 {
      var t := q[1..];
      assert forall i :: 0 <= i < |t| ==> t[i] == q[i + 1];
      KeepEvery(t, keep);
      assert KeepIn(q, keep) == [q[0]] + KeepIn(t, keep);
    }
  }

  /** The page invariant: the list has no repeats, and the document holds
      exactly the listed notifications. */
  predicate Valid(p: Page)
  {
    NoDup(p.active) && p.attached == Elements(p.active)
  }

  /** Where the notification at `index` sits. */
  datatype Placement = Placement(top: int, zIndex: int)

  /** `updateNotificationPositions`: the list keeps exactly its entries
      still in the document, in order, and gets one placement per entry: the
      first at the top offset and base z-index, each later one a stack step
      lower and one layer above the one before it. */
  function UpdatePositions(p: Page): (r: (Page, seq<Placement>))
    ensures r.0 == p.(active := KeepIn(p.active, p.attached))
    ensures forall x :: x in r.0.active <==> x in p.active && x in p.attached
    ensures |r.1| == |r.0.active|
    ensures |r.1| > 0 ==> r.1[0] == Placement(TopOffset, BaseZIndex)
    ensures forall i :: 0 < i < |r.1| ==>
      r.1[i].top == r.1[i - 1].top + StackOffset && r.1[i].zIndex == r.1[i - 1].zIndex + 1
  {
    var q := KeepIn(p.active, p.attached);
    KeepInMembers(p.active, p.attached);
    (p.(active := q), seq(|q|, i => Placement(TopOffset + StackOffset * i, BaseZIndex + i)))
  }

  /** Later notifications sit lower and above the earlier ones; with the
      list capped at three, the lowest starts 180 pixels from the top. */
  lemma PlacementsStack(p: Page)
    requires |KeepIn(p.active, p.attached)| <= MaxNotifications
    ensures var pl := UpdatePositions(p).1;
      && (forall i :: 0 < i < |pl| ==> pl[i].top == pl[i - 1].top + StackOffset && pl[i].zIndex > pl[i - 1].zIndex)
      && (forall i :: 0 <= i < |pl| ==> TopOffset <= pl[i].top <= TopOffset + StackOffset * (MaxNotifications - 1))
  {
  }

  /** The list once detached entries are dropped. */
  function Live(p: Page): seq<nat>
  {
    KeepIn(p.active, p.attached)
  }

  /** `showNotification` with the new element `id`: stray notification
      elements that are not in the list are detached, detached entries are
      dropped from the list, the oldest entries are evicted (and detached)
      while three or more remain, and the new element is attached and
      appended last. */
  method ShowNotification(p: Page, id: nat) returns (r: Page, placements: seq<Placement>)
    requires NoDup(p.active)
    requires id !in p.active && id !in p.attached
    ensures Valid(r)
    ensures 0 < |r.active| <= MaxNotifications
    ensures r.active[|r.active| - 1] == id
    ensures |r.active| - 1 == if |Live(p)| < MaxNotifications then |Live(p)| else MaxNotifications - 1
    ensures r.active[..|r.active| - 1] == Live(p)[|Live(p)| - (|r.active| - 1)..]
    ensures r.pending == p.pending
    ensures |placements| == |r.active|
    ensures placements[|placements| - 1] == Placement(TopOffset + StackOffset * (|r.active| - 1), BaseZIndex + |r.active| - 1)
    ensures forall i :: 0 <= i < |placements| ==>
      placements[i] == Placement(TopOffset + StackOffset * i, BaseZIndex + i)
  {
    // stray elements are detached, then detached entries leave the list
    var attached := p.attached * Elements(p.active);
    var q := KeepIn(p.active, attached);
    SweepGivesLive(p);
    assert q == Live(p) && attached <= p.attached;
    q, attached := EvictOldest(q, attached);
    AppendFresh(q, attached, id, p.pending);
    var pr := UpdatePositions(Page(q + [id], attached + {id}, p.pending));
    r, placements := pr.0, pr.1;
  }

  /** The first two steps of `showNotification` leave the live list, and the
      document holds exactly its entries. */
  lemma SweepGivesLive(p: Page)
    requires NoDup(p.active)
    ensures var attached := p.attached * Elements(p.active);
      var q := KeepIn(p.active, attached);
      q == Live(p) && attached == Elements(q) && NoDup(q)
  {
    var attached := p.attached * Elements(p.active);
    var q := KeepIn(p.active, attached);
    KeepInSameMembers(p.active, attached, p.attached);
    KeepInMembers(p.active, attached);
    KeepInNoDup(p.active, attached);
  }

  /** Appending a fresh element keeps the list free of repeats, and the
      refreshed positions keep every entry. */
  lemma AppendFresh(q: seq<nat>, attached: set<nat>, id: nat, pending: seq<nat>)
    requires NoDup(q) && attached == Elements(q) && id !in attached
    ensures var pr := UpdatePositions(Page(q + [id], attached + {id}, pending));
      && pr.0 == Page(q + [id], attached + {id}, pending)
      && Valid(pr.0)
      && |pr.1| == |q| + 1
      && pr.1[|q|] == Placement(TopOffset + StackOffset * |q|, BaseZIndex + |q|)
    ensures (q + [id])[..|q|] == q
  {
    var shown := q + [id];
    var keep := attached + {id};
    assert forall i :: 0 <= i < |q| ==> shown[i] == q[i];
    assert forall x :: x in shown <==> x in q || x == id;
    assert Elements(shown) == keep;
    assert NoDup(shown);
    KeepEvery(shown, keep);
    assert KeepIn(shown, keep) == shown;
  }

  /** The eviction loop of `showNotification`: while three or more remain,
      the oldest leaves the list and the document. */
  method EvictOldest(q0: seq<nat>, attached0: set<nat>) returns (q: seq<nat>, attached: set<nat>)
    requires NoDup(q0) && attached0 == Elements(q0)
    ensures |q| == if |q0| < MaxNotifications then |q0| else MaxNotifications - 1
    ensures q == q0[|q0| - |q|..]
    ensures NoDup(q) && attached == Elements(q)
    ensures attached <= attached0
  {
    q, attached := q0, attached0;
    var dropped := 0;
    while |q| >= MaxNotifications
      invariant 0 <= dropped <= |q0|
      invariant q == q0[dropped..]
      invariant NoDup(q) && attached == Elements(q)
      invariant attached <= attached0
      invariant dropped > 0 ==> |q| >= MaxNotifications - 1
      decreases |q|
    {
      attached := attached - {q[0]};
      assert Elements(q[1..]) == Elements(q) - {q[0]} by {
        assert forall x :: x in q[1..] <==> x in q && x != q[0];
      }
      q := q[1..];
      dropped := dropped + 1;
    }
  }

  /** Filtering by two sets that agree on the list's members gives the same
      result. */
  lemma {:induction false} KeepInSameMembers(q: seq<nat>, a: set<nat>, b: set<nat>)
    requires forall x :: x in q ==> (x in a <==> x in b)
    ensures KeepIn(q, a) == KeepIn(q, b)
    decreases |q|
  {
    if |q| > 0 {
      assert forall x :: x in q[1..] ==> x in q;
      KeepInSameMembers(q[1..], a, b);
      assert q[0] in q;
    }
  }

  /** `closeNotification(id)` itself: the auto-close timer is cancelled and
      the fade-out starts; the removal happens only when the 300 ms timer
      fires. */
  function CloseNotification(p: Page, id: nat): (r: Page)
    ensures r.active == p.active && r.attached == p.attached
    ensures r.pending == p.pending + [id]
  {
    p.(pending := p.pending + [id])
  }

  /** The removal timer of `id` fires: the element is detached, it leaves the
      list, and the positions are refreshed (which drops detached entries). */
  function FinishClose(p: Page, id: nat): (r: Page)
    ensures id !in r.active && id !in r.attached
    ensures Elements(r.active) == Elements(p.active) * p.attached - {id}
    ensures r.pending == p.pending
  {
    var attached := p.attached - {id};
    KeepInMembers(p.active, Elements(p.active) - {id});
    KeepInMembers(Without(p.active, id), attached);
    UpdatePositions(Page(Without(p.active, id), attached, p.pending)).0
  }

  /** Closing one of the shown notifications leaves the others where they
      were in the list, and the page invariant holds afterwards. */
  lemma CloseRemovesOnlyThatEntry(p: Page, k: nat)
    requires Valid(p) && k < |p.active|
    ensures var r := FinishClose(p, p.active[k]);
      r.active == p.active[..k] + p.active[k + 1..] && Valid(r)
  {
    var id := p.active[k];
    WithoutRemovesOne(p.active, k);
    var w := Without(p.active, id);
    KeepInMembers(p.active, Elements(p.active) - {id});
    KeepInNoDup(p.active, Elements(p.active) - {id});
    forall i | 0 <= i < |w|
      ensures w[i] in p.attached - {id}
    {
      assert w[i] in w;
    }
    KeepEvery(w, p.attached - {id});
    KeepInMembers(w, p.attached - {id});
  }

  /** The oldest pending removal timer fires. */
  function FireNext(p: Page): (r: Page)
    requires |p.pending| > 0
    ensures r.pending == p.pending[1..]
    ensures Elements(r.active) == Elements(p.active) * p.attached - {p.pending[0]}
  {
    FinishClose(p.(pending := p.pending[1..]), p.pending[0])
  }

  /** Every pending timer fires, in order. */
  function RunTimers(p: Page): (r: Page)
    ensures r.pending == []
    decreases |p.pending|
  {
    if |p.pending| == 0 then p else RunTimers(FireNext(p))
  }

  /** After the timers have run, nothing whose removal was pending is still
      listed. */
  lemma {:induction false} RunTimersRemovesPending(p: Page)
    ensures Elements(RunTimers(p).active) <= Elements(p.active) - Elements(p.pending)
    decreases |p.pending|
  {
    if |p.pending| > 0 {
      var p1 := FireNext(p);
      RunTimersRemovesPending(p1);
      assert Elements(p.pending) == {p.pending[0]} + Elements(p1.pending) by {
        assert forall x :: x in p.pending <==> x == p.pending[0] || x in p.pending[1..];
      }
    }
  }

  lemma NoElementsIsEmpty(q: seq<nat>)
    requires Elements(q) == {}
    ensures q == []
  {
    if |q| > 0 {
      FirstIsElement(q);
    }
  }

  lemma FirstIsElement(q: seq<nat>)
    requires |q| > 0
    ensures q[0] in Elements(q)
  {
  }

  /** `closeAll` as written: one pass of its loop closes the first listed
      notification whenever the list is non-empty. */
  function CloseAllStep(p: Page): Page
  {
    if |p.active| > 0 then CloseNotification(p, p.active[0]) else p
  }

  /** The page after `k` passes of that loop. */
  function CloseAllPasses(p: Page, k: nat): Page
    decreases k
  {
    if k == 0 then p else CloseAllPasses(CloseAllStep(p), k - 1)
  }

  /** `closeNotification` only schedules the removal, and no timer can fire
      while the loop runs, so the list never shrinks: after any number of
      passes a non-empty list is still non-empty and the loop never ends,
      scheduling one more timer per pass. */
  lemma {:induction false} CloseAllAsWrittenNeverEnds(p: Page, k: nat)
    requires |p.active| > 0
    ensures CloseAllPasses(p, k).active == p.active
    ensures |CloseAllPasses(p, k).pending| == |p.pending| + k
    decreases k
  {
    if k > 0 {
      CloseAllAsWrittenNeverEnds(CloseAllStep(p), k - 1);
    }
  }

  /** `closeAll` over a snapshot of the list: each listed notification is
      closed once. */
  function CloseAll(p: Page): (r: Page)
    ensures r.active == p.active && r.attached == p.attached
    ensures r.pending == p.pending + p.active
  {
    CloseAllOf(p, p.active)
  }

  function CloseAllOf(p: Page, ids: seq<nat>): (r: Page)
    ensures r.active == p.active && r.attached == p.attached
    ensures r.pending == p.pending + ids
    decreases |ids|
  {
    if |ids| == 0 then p
    else
      var r := CloseAllOf(CloseNotification(p, ids[0]), ids[1..]);
      assert p.pending + [ids[0]] + ids[1..] == p.pending + ids;
      r
  }

  /** Once the timers of the snapshot close have run, the list is empty. */
  lemma CloseAllEmptiesList(p: Page)
    ensures RunTimers(CloseAll(p)).active == []
  {
    var c := CloseAll(p);
    RunTimersRemovesPending(c);
    var r := RunTimers(c);
    assert Elements(c.active) <= Elements(c.pending);
    NoElementsIsEmpty(r.active);
  }
}
