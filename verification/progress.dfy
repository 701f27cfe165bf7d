/** Goal progress: `Goal.get_progress_percent` of main/models.py (Python,
    rounds half to even) and `updateIndexGoalProgressLocal` of
    main/static/js/components/index-subgoals.js (JavaScript, `Math.round`
    rounds half up). Both compute `completed / total * 100`; the ratio is
    taken exactly here. */
module Progress {
  import opened Wrappers

  /** Euclidean division, spelled out for the solver. */
  lemma DivMod(a: int, b: int)
    requires b > 0
    ensures a == b * (a / b) + a % b && 0 <= a % b < b
  {
  }

  /** Cancelling a positive factor on both sides of `<=`. */
  lemma ScaledLe(x: int, y: int, t: int)
    requires t > 0 && x * t <= y * t
    ensures x <= y
  {
  }

  /** Cancelling a positive factor on both sides of `<`. */
  lemma ScaledLt(x: int, y: int, t: int)
    requires t > 0 && x * t < y * t
    ensures x < y
  {
  }

  /** Python's `round(n / d)`: nearest integer, ties to the even one. */
  function PyRound(n: int, d: int): (r: int)
    requires d > 0
    ensures -d <= 2 * n - 2 * (r * d) <= d
    ensures 2 * n - 2 * (r * d) == d ==> r % 2 == 0
    ensures 2 * n - 2 * (r * d) == -d ==> r % 2 == 0
  {
    var q := n / d;
    var rem := n % d;
    DivMod(n, d);
    assert (q + 1) * d == q * d + d;
    if 2 * rem < d then q
    else if 2 * rem > d then q + 1
    else if q % 2 == 0 then q else q + 1
  }

  /** JavaScript's `Math.round(n / d)`: `floor(n / d + 0.5)`. */
  function JsRound(n: int, d: int): (r: int)
    requires d > 0
    ensures -d <= 2 * n - 2 * (r * d) < d
  {
    var r := (2 * n + d) / (2 * d);
    DivMod(2 * n + d, 2 * d);
    assert 2 * d * r == 2 * (r * d);
    r
  }

  /** The rounding condition pins the result down: the integer within half
      a unit below or above (ties upward) is `Math.round`'s answer. */
  lemma JsRoundUnique(n: int, d: int, r: int)
    requires d > 0
    requires -d <= 2 * n - 2 * (r * d) < d
    ensures r == JsRound(n, d)
  {
    var j := JsRound(n, d);
    // r * d and j * d both lie in (n - d/2, n + d/2]
    assert -d < r * d - j * d < d;
    assert r * d - j * d == (r - j) * d;
    ScaledLt(r - j, 1, d);
    ScaledLt(-1, r - j, d);
  }

  /** The two roundings differ only on exact halves. */
  lemma RoundingsAgreeOffTies(n: int, d: int)
    requires d > 0
    requires 2 * n - 2 * (PyRound(n, d) * d) != d
    ensures PyRound(n, d) == JsRound(n, d)
  {
    JsRoundUnique(n, d, PyRound(n, d));
  }

  /** Count of completed entries in a list of completion flags. */
  function CountTrue(flags: seq<bool>): (n: nat)
    ensures n <= |flags|
    ensures n == |flags| <==> forall i :: 0 <= i < |flags| ==> flags[i]
    ensures n == 0 <==> forall i :: 0 <= i < |flags| ==> !flags[i]
  {
    if |flags| == 0 then 0
    else
      assert forall i :: 1 <= i < |flags| ==> flags[i] == flags[1..][i - 1];
      (if flags[0] then 1 else 0) + CountTrue(flags[1..])
  }

  /** `Goal.get_progress_percent` over the sub-goals' completed flags. */
  function ProgressPercent(subgoals: seq<bool>): (p: int)
    ensures 0 <= p <= 100
    ensures |subgoals| == 0 ==> p == 0
    ensures |subgoals| > 0 && (forall i :: 0 <= i < |subgoals| ==> subgoals[i]) ==> p == 100
    ensures (forall i :: 0 <= i < |subgoals| ==> !subgoals[i]) ==> p == 0
    ensures |subgoals| > 0 ==>
      -|subgoals| <= 200 * CountTrue(subgoals) - 2 * (p * |subgoals|) <= |subgoals|
    ensures |subgoals| > 0 && 200 * CountTrue(subgoals) - 2 * (p * |subgoals|) == |subgoals| ==> p % 2 == 0
    ensures |subgoals| > 0 && 200 * CountTrue(subgoals) - 2 * (p * |subgoals|) == -|subgoals| ==> p % 2 == 0
  {
    var total := |subgoals|;
    if total == 0 then 0
    else
      var c := CountTrue(subgoals);
      var p := PyRound(100 * c, total);
      PercentBounds(c, total, p);
      p
  }

  /** A percentage within half a point of `100 * c / t` lies in 0..100, and is
      exactly 100 or 0 at the ends. */
  lemma PercentBounds(c: int, t: int, p: int)
    requires 0 <= c <= t && t > 0
    requires -t <= 200 * c - 2 * (p * t) <= t
    ensures 0 <= p <= 100
    ensures c == t ==> p == 100
    ensures c == 0 ==> p == 0
  {
    assert (2 * p + 1) * t == 2 * (p * t) + t;
    assert (2 * p) * t == 2 * (p * t);
    ScaledLe(0, 2 * p + 1, t);
    ScaledLe(2 * p, 201, t);
    if c == t {
      ScaledLe(199, 2 * p, t);
    }
    if c == 0 {
      ScaledLe(2 * p, 1, t);
    }
  }

  datatype Status = Completed | InProgress

  /** What the local JS update writes on a goal card: bar width and percent
      label, the status badge and the "Subgoals (c/t)" header. */
  datatype ProgressView = ProgressView(percent: int, status: Status, completed: nat, total: nat)

  /** `Math.round(completed / total * 100)` for a non-empty card. */
  function JsPercent(completed: int, total: int): (p: int)
    requires 0 <= completed <= total && total > 0
    ensures 0 <= p <= 100
    ensures completed == total ==> p == 100
    ensures completed == 0 ==> p == 0
    ensures -total <= 200 * completed - 2 * (p * total) < total
  {
    var p := JsRound(100 * completed, total);
    PercentBounds(completed, total, p);
    p
  }

  /** `updateIndexGoalProgressLocal` as written: nothing happens on a card
      without sub-goals; otherwise the status is "Completed" exactly when the
      rounded percentage is 100. */
  function UpdateGoalProgressAsWritten(subgoals: seq<bool>): (r: Option<ProgressView>)
    ensures |subgoals| == 0 <==> r.None?
    ensures r.Some? ==> 0 <= r.value.percent <= 100
    ensures r.Some? ==> (r.value.status == Completed <==> r.value.percent == 100)
    ensures r.Some? ==> r.value.completed == CountTrue(subgoals) && r.value.total == |subgoals|
    ensures r.Some? ==>
      -(r.value.total as int) <= 200 * r.value.completed - 2 * (r.value.percent * r.value.total) < r.value.total
  {
    if |subgoals| == 0 then None
    else
      var c := CountTrue(subgoals);
      var p := JsPercent(c, |subgoals|);
      Some(ProgressView(p, if p == 100 then Completed else InProgress, c, |subgoals|))
  }

  /** 200 of 201 sub-goals done rounds to 100 %, so the card is badged
      "Completed" while a sub-goal is still open. */
  lemma AsWrittenCompletesEarly()
    ensures
      var flags := seq(201, i => i < 200);
      var v := UpdateGoalProgressAsWritten(flags);
      v.Some? && v.value.status == Completed && exists i :: 0 <= i < 201 && !flags[i]
  {
    var flags := seq(201, i => i < 200);
    assert flags[..200] + [flags[200]] == flags;
    assert CountTrue(flags[..200]) == 200;
    CountTrueAppend(flags[..200], [flags[200]]);
    assert !flags[200];
  }

  lemma {:induction false} CountTrueAppend(a: seq<bool>, b: seq<bool>)
    ensures CountTrue(a + b) == CountTrue(a) + CountTrue(b)
    decreases |a|
  {
    if |a| == 0 {
      assert a + b == b;
    } else {
      assert (a + b)[0] == a[0];
      assert (a + b)[1..] == a[1..] + b;
      CountTrueAppend(a[1..], b);
    }
  }

  /** The card update with the status tied to the sub-goals themselves:
      "Completed" exactly when every sub-goal is done. */
  function UpdateGoalProgress(subgoals: seq<bool>): (r: Option<ProgressView>)
    ensures |subgoals| == 0 <==> r.None?
    ensures r.Some? ==> 0 <= r.value.percent <= 100
    ensures r.Some? ==>
      (r.value.status == Completed <==> forall i :: 0 <= i < |subgoals| ==> subgoals[i])
    ensures r.Some? && r.value.status == Completed ==> r.value.percent == 100
    ensures r.Some? ==> r.value.completed == CountTrue(subgoals) && r.value.total == |subgoals|
    ensures r.Some? ==>
      -(r.value.total as int) <= 200 * r.value.completed - 2 * (r.value.percent * r.value.total) < r.value.total
  {
    if |subgoals| == 0 then None
    else
      var c := CountTrue(subgoals);
      var p := JsPercent(c, |subgoals|);
      Some(ProgressView(p, if c == |subgoals| then Completed else InProgress, c, |subgoals|))
  }

  /** Below 200 sub-goals the corrected status and the written one agree. */
  lemma CorrectedAgreesOnSmallCards(subgoals: seq<bool>)
    requires 0 < |subgoals| < 200
    ensures UpdateGoalProgress(subgoals) == UpdateGoalProgressAsWritten(subgoals)
  {
  }

  /** The page rendered by the server and the card updated in the browser
      can disagree: one of eight sub-goals done is 12 % in Python and 13 %
      in JavaScript. */
  lemma ServerAndBrowserDisagreeOnHalves()
    ensures ProgressPercent([true, false, false, false, false, false, false, false]) == 12
    ensures UpdateGoalProgress([true, false, false, false, false, false, false, false]).value.percent == 13
  {
    var flags := [true, false, false, false, false, false, false, false];
    assert CountTrue(flags) == 1;
    assert PyRound(100, 8) == 12;
    assert JsRound(100, 8) == 13;
  }
}
