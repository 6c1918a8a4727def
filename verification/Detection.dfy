/**
 * How soon a validator that never proposes is reported: the skip reporter and the offline reporter
 * together, for a constant set of validators.
 */
module Detection {
  import opened Basics
  import opened SkipReporter
  import opened OfflineReporter

  ghost predicate AreDistinct(validators: seq<Address>) {
    forall i, j :: 0 <= i < j < |validators| ==> validators[i] != validators[j]
  }

  /** The calls of the offline reporter when `validators` take turns at all heights. */
  ghost function EventsOf(validators: seq<Address>, skips: seq<SkippedProposal>): (events: seq<SkipEvent>)
    requires validators != []
    ensures |events| == |skips|
    ensures forall i :: 0 <= i < |skips| ==>
            events[i] == SkipEvent(validators[skips[i].step % |validators|], skips[i].step, |validators|)
  {
    seq(|skips|, i requires 0 <= i < |skips| =>
          SkipEvent(validators[skips[i].step % |validators|], skips[i].step, |validators|))
  }

  /** Number of the skips of turn `k` at or after `cutoff`. */
  ghost function Count(skips: seq<SkippedProposal>, n: nat, k: nat, cutoff: int): nat
    requires n > 0
  {
    if skips == [] then 0 else
      var s := skips[|skips| - 1].step;
      Count(skips[..|skips| - 1], n, k, cutoff) + if s % n == k && cutoff <= s then 1 else 0
  }

  /** The latest skipped step of turn `k`. */
  ghost function Last(skips: seq<SkippedProposal>, n: nat, k: nat): Option<int>
    requires n > 0
  {
    if skips == [] then None
    else if skips[|skips| - 1].step % n == k then Some(skips[|skips| - 1].step)
    else Last(skips[..|skips| - 1], n, k)
  }

  // ---------------------------------------------------------------------------
  // Arithmetic of turns
  // ---------------------------------------------------------------------------

  lemma AtLeastOnce(a: int, n: nat)
    requires 1 <= a
    ensures n <= a * n
  {
    assert a * n == (a - 1) * n + n;
  }

  lemma QuotientIsUnique(x: int, n: nat, q: int, r: int)
    requires n > 0 && 0 <= r < n && x == q * n + r
    ensures x / n == q && x % n == r
  {
    var p := x / n;
    assert x == p * n + x % n;
    assert (q - p) * n == q * n - p * n;
    if p < q {
      AtLeastOnce(q - p, n);
      assert false;
    }
    if q < p {
      AtLeastOnce(p - q, n);
      assert false;
    }
  }

  /** Two steps of the same turn are at least a full round apart. */
  lemma SameTurn(s: int, t: int, n: nat)
    requires n > 0 && s < t && s % n == t % n
    ensures s <= t - n
  {
    var a, b := s / n, t / n;
    assert s == a * n + s % n && t == b * n + t % n;
    assert (b - a) * n == b * n - a * n;
    if b < a {
      AtLeastOnce(a - b, n);
      assert false;
    }
    if a < b {
      AtLeastOnce(b - a, n);
    }
  }

  /** The same turn comes one round earlier. */
  lemma TurnBefore(t: int, n: nat)
    requires n > 0
    ensures (t - n) % n == t % n
  {
    assert t - n == (t / n - 1) * n + t % n;
    QuotientIsUnique(t - n, n, t / n - 1, t % n);
  }

  // ---------------------------------------------------------------------------
  // The window of one validator counts its skips
  // ---------------------------------------------------------------------------

  lemma EventsPrefix(validators: seq<Address>, skips: seq<SkippedProposal>, j: nat)
    requires validators != [] && j <= |skips|
    ensures EventsOf(validators, skips)[..j] == EventsOf(validators, skips[..j])
  {
  }

  lemma {:induction false} WindowCountsSkips(validators: seq<Address>, skips: seq<SkippedProposal>, k: nat, cutoff: int)
    requires k < |validators| && AreDistinct(validators)
    ensures WindowTime(EventsOf(validators, skips), validators[k], cutoff) ==
            |validators| * Count(skips, |validators|, k, cutoff)
  {
    if skips != [] {
      var m := |skips| - 1;
      var events, turn := EventsOf(validators, skips), skips[m].step % |validators|;
      WindowCountsSkips(validators, skips[..m], k, cutoff);
      EventsPrefix(validators, skips, m);
      assert events[m].validator == validators[k] <==> turn == k;
      OneMoreRound(|validators|, Count(skips[..m], |validators|, k, cutoff));
    }
  }

  lemma OneMoreRound(n: nat, c: nat)
    ensures n * (c + 1) == n * c + n
  {
  }

  /** The skips of one turn are at least a full round apart, so few of them fit behind a cutoff. */
  lemma {:induction false} FewSkipsFit(skips: seq<SkippedProposal>, n: nat, k: nat, cutoff: int)
    requires n > 0 && StepsIncrease(skips)
    ensures Last(skips, n, k).Some? ==>
            Last(skips, n, k).value % n == k && Last(skips, n, k).value <= skips[|skips| - 1].step
    ensures Count(skips, n, k, cutoff) > 0 ==>
              && Last(skips, n, k).Some? && cutoff <= Last(skips, n, k).value
              && n * Count(skips, n, k, cutoff) <= Last(skips, n, k).value - cutoff + n
  {
    if skips != [] {
      var m := |skips| - 1;
      var before, s := skips[..m], skips[m].step;
      FewSkipsFit(before, n, k, cutoff);
      var c, last := Count(before, n, k, cutoff), Last(before, n, k);
      assert Count(skips, n, k, cutoff) == c + if s % n == k && cutoff <= s then 1 else 0;
      assert Last(skips, n, k) == if s % n == k then Some(s) else last;
      hide Count, Last;
      if s % n == k && last.Some? {
        SameTurn(last.value, s, n);
      }
      assert n * (c + 1) == n * c + n;
    }
  }

  /** No validator's window time ever exceeds the window size by more than one round. */
  lemma WindowTimeIsBounded(validators: seq<Address>, skips: seq<SkippedProposal>, v: Address, window: nat)
    requires AreDistinct(validators) && validators != [] && skips != [] && StepsIncrease(skips)
    ensures WindowTime(EventsOf(validators, skips), v, skips[|skips| - 1].step - window) <= window + |validators|
  {
    hide WindowTime, Count, Last, AreDistinct, EventsOf;
    var n, cutoff := |validators|, skips[|skips| - 1].step - window;
    if k: nat :| k < n && validators[k] == v {
      WindowCountsSkips(validators, skips, k, cutoff);
      FewSkipsFit(skips, n, k, cutoff);
    } else {
      StrangersAreNeverOffline(validators, skips, v, cutoff);
    }
  }

  lemma {:induction false} StrangersAreNeverOffline(validators: seq<Address>, skips: seq<SkippedProposal>, v: Address,
      cutoff: int)
    requires validators != [] && v !in validators
    ensures WindowTime(EventsOf(validators, skips), v, cutoff) == 0
  {
    if skips != [] {
      var m := |skips| - 1;
      StrangersAreNeverOffline(validators, skips[..m], v, cutoff);
      EventsPrefix(validators, skips, m);
      assert EventsOf(validators, skips)[m].validator in validators;
    }
  }

  // ---------------------------------------------------------------------------
  // A validator that never proposes is missed in every one of its turns
  // ---------------------------------------------------------------------------

  /** After the first block no block carries a step of turn `k`. */
  ghost predicate NeverProposes(blocks: seq<Block>, n: nat, k: nat)
    requires n > 0
  {
    forall i :: 1 <= i < |blocks| ==> blocks[i].step % n != k
  }

  lemma TurnIsMissed(blocks: seq<Block>, grace: nat, skips: seq<SkippedProposal>, n: nat, k: nat, s: int)
    returns (i: nat)
    requires n > 0 && blocks != [] && IsReportOf(blocks, grace, skips) && NeverProposes(blocks, n, k)
    requires blocks[0].step < s && s % n == k && s + grace < LatestStep(blocks)
    ensures i < |skips| && skips[i].step == s
  {
    hide FirstAbove, LatestStep;
    var l :| 0 <= l < |blocks| && blocks[l].step == LatestStep(blocks);
    assert FirstAbove(blocks, s + grace) < |blocks| && FirstAbove(blocks, s) < |blocks|;
    var p := SkippedProposal(s, blocks[FirstAbove(blocks, s)].number);
    assert Missed(blocks, grace, p);
    i :| 0 <= i < |skips| && skips[i] == p;
  }

  lemma MissedIsWithin(blocks: seq<Block>, grace: nat, p: SkippedProposal)
    requires Missed(blocks, grace, p)
    ensures blocks[0].step < p.step && p.step + grace < LatestStep(blocks)
  {
    hide FirstAbove, LatestStep;
    assert blocks[FirstAbove(blocks, p.step + grace)].step <= LatestStep(blocks);
  }

  lemma {:induction false} LastIsLatest(skips: seq<SkippedProposal>, n: nat, k: nat, i: nat)
    requires n > 0 && StepsIncrease(skips) && i < |skips| && skips[i].step % n == k
    ensures Last(skips, n, k).Some? && skips[i].step <= Last(skips, n, k).value
  {
    if skips[|skips| - 1].step % n != k {
      LastIsLatest(skips[..|skips| - 1], n, k, i);
    }
  }

  lemma {:induction false} LastIsThere(skips: seq<SkippedProposal>, n: nat, k: nat)
    requires n > 0
    ensures Last(skips, n, k).Some? ==>
              exists i :: 0 <= i < |skips| && skips[i].step == Last(skips, n, k).value && skips[i].step % n == k
  {
    if skips != [] && skips[|skips| - 1].step % n != k {
      var before := skips[..|skips| - 1];
      LastIsThere(before, n, k);
      if Last(before, n, k).Some? {
        var i :| 0 <= i < |before| && before[i].step == Last(before, n, k).value && before[i].step % n == k;
        assert skips[i] == before[i];
      }
    }
  }

  /** Each skip of turn `k` comes exactly one round after the previous one. */
  ghost predicate Consecutive(skips: seq<SkippedProposal>, n: nat, k: nat)
    requires n > 0
  {
    forall j :: 0 <= j < |skips| && skips[j].step % n == k && Last(skips[..j], n, k).Some? ==>
                  Last(skips[..j], n, k).value == skips[j].step - n
  }

  lemma SkipsAreConsecutive(blocks: seq<Block>, grace: nat, skips: seq<SkippedProposal>, n: nat, k: nat)
    requires n > 0 && blocks != [] && IsReportOf(blocks, grace, skips) && NeverProposes(blocks, n, k)
    ensures Consecutive(skips, n, k)
  {
    hide Last, LatestStep, FirstAbove, Missed;
    forall j | 0 <= j < |skips| && skips[j].step % n == k && Last(skips[..j], n, k).Some?
      ensures Last(skips[..j], n, k).value == skips[j].step - n
    {
      var t, before := skips[j].step, skips[..j];
      LastIsThere(before, n, k);
      var i :| 0 <= i < j && skips[i].step == Last(before, n, k).value && skips[i].step % n == k;
      assert skips[i] in skips && skips[j] in skips;
      MissedIsWithin(blocks, grace, skips[i]);
      MissedIsWithin(blocks, grace, skips[j]);
      SameTurn(skips[i].step, t, n);
      TurnBefore(t, n);
      var h := TurnIsMissed(blocks, grace, skips, n, k, t - n);
      assert h < j;
      LastIsLatest(before, n, k, h);
    }
  }

  /** Number of skips of turn `k`. */
  ghost function Number(skips: seq<SkippedProposal>, n: nat, k: nat): nat
    requires n > 0
  {
    if skips == [] then 0 else
      Number(skips[..|skips| - 1], n, k) + if skips[|skips| - 1].step % n == k then 1 else 0
  }

  /** The last `i` skips of a turn lie within `i - 1` rounds. */
  lemma {:induction false} CountBack(skips: seq<SkippedProposal>, n: nat, k: nat, i: nat)
    requires n > 0 && Consecutive(skips, n, k) && 1 <= i <= Number(skips, n, k)
    ensures Last(skips, n, k).Some?
    ensures i <= Count(skips, n, k, Last(skips, n, k).value - (i - 1) * n)
  {
    hide Count, Consecutive, Number, Last;
    NumberOfNone(skips, n, k);
    var before, s := skips[..|skips| - 1], skips[|skips| - 1].step;
    ConsecutivePrefix(skips, n, k);
    WithoutLast(skips, n, k, 0);
    if s % n != k {
      CountBack(before, n, k, i);
      WithoutLast(skips, n, k, Last(before, n, k).value - (i - 1) * n);
    } else {
      WithoutLast(skips, n, k, s - (i - 1) * n);
      if i > 1 {
        CountBack(before, n, k, i - 1);
        assert (i - 1) * n == (i - 2) * n + n;
      }
    }
  }

  lemma NumberOfNone(skips: seq<SkippedProposal>, n: nat, k: nat)
    requires n > 0
    ensures skips == [] ==> Number(skips, n, k) == 0
  {
  }

  /** What the last skip contributes. */
  lemma WithoutLast(skips: seq<SkippedProposal>, n: nat, k: nat, cutoff: int)
    requires n > 0 && skips != []
    ensures var before, s := skips[..|skips| - 1], skips[|skips| - 1].step;
            && Number(skips, n, k) == Number(before, n, k) + (if s % n == k then 1 else 0)
            && Last(skips, n, k) == (if s % n == k then Some(s) else Last(before, n, k))
            && Count(skips, n, k, cutoff) == Count(before, n, k, cutoff) + if s % n == k && cutoff <= s then 1 else 0
  {
  }

  lemma ConsecutivePrefix(skips: seq<SkippedProposal>, n: nat, k: nat)
    requires n > 0 && skips != [] && Consecutive(skips, n, k)
    ensures Consecutive(skips[..|skips| - 1], n, k)
    ensures var before, s := skips[..|skips| - 1], skips[|skips| - 1].step;
            s % n == k && Last(before, n, k).Some? ==> Last(before, n, k).value == s - n
  {
    hide Last;
    var before := skips[..|skips| - 1];
    assert forall j :: 0 <= j < |before| ==> before[..j] == skips[..j];
  }

  lemma {:induction false} CountGrows(skips: seq<SkippedProposal>, n: nat, k: nat, a: int, b: int)
    requires n > 0 && a <= b
    ensures Count(skips, n, k, b) <= Count(skips, n, k, a)
  {
    if skips != [] {
      CountGrows(skips[..|skips| - 1], n, k, a, b);
    }
  }

  // ---------------------------------------------------------------------------
  // Detection
  // ---------------------------------------------------------------------------

  /** The prefix that ends with the last skip of turn `k` has as many of them. */
  lemma {:induction false} UpToLast(skips: seq<SkippedProposal>, n: nat, k: nat) returns (j: nat)
    requires n > 0 && Number(skips, n, k) > 0
    ensures 0 < j <= |skips| && skips[j - 1].step % n == k
    ensures Number(skips[..j], n, k) == Number(skips, n, k)
    ensures Last(skips[..j], n, k) == Some(skips[j - 1].step)
  {
    var m := |skips| - 1;
    if skips[m].step % n == k {
      j := m + 1;
      assert skips[..j] == skips;
    } else {
      j := UpToLast(skips[..m], n, k);
      assert skips[..m][..j] == skips[..j];
    }
  }

  lemma {:induction false} PrefixIsConsecutive(skips: seq<SkippedProposal>, n: nat, k: nat, j: nat)
    requires n > 0 && j <= |skips| && Consecutive(skips, n, k)
    ensures Consecutive(skips[..j], n, k)
  {
    hide Last;
    assert forall i :: 0 <= i < j ==> skips[..j][..i] == skips[..i];
  }

  /** With a full window's worth of turns missed in a row, any rate up to 1 is exceeded. */
  lemma FullWindowExceeds(time: int, n: nat, count: nat, limits: Limits)
    requires n > 0 && time == n * count && limits.window / n + 1 <= count
    requires limits.allowed <= limits.outOf && 0 < limits.outOf
    ensures limits.window < time
    ensures limits.allowed * limits.window < time * limits.outOf
  {
    var q := limits.window / n;
    assert limits.window < n * (q + 1) by {
      assert limits.window == n * q + limits.window % n;
      assert n * (q + 1) == n * q + n;
    }
    assert n * (q + 1) <= n * count by { Monotone(q + 1, count, n); }
    Monotone(limits.allowed, limits.outOf, limits.window);
    Monotone(limits.window + 1, time, limits.outOf);
    assert (limits.window + 1) * limits.outOf == limits.outOf * limits.window + limits.outOf;
  }

  lemma Monotone(a: int, b: int, n: nat)
    requires a <= b
    ensures a * n <= b * n && n * a <= n * b
  {
    assert b * n - a * n == (b - a) * n;
  }

  /**
   * A validator that never proposes after the first block is reported no later than its skip with
   * number window / n + 1, whatever the allowed rate.
   */
  lemma DetectedByNumberOfSkips(
      blocks: seq<Block>, grace: nat, skips: seq<SkippedProposal>, validators: seq<Address>, k: nat, limits: Limits,
      j: nat)
    requires k < |validators| && AreDistinct(validators)
    requires limits.allowed <= limits.outOf && 0 < limits.outOf
    requires blocks != [] && IsReportOf(blocks, grace, skips) && NeverProposes(blocks, |validators|, k)
    requires j <= |skips| && limits.window / |validators| + 1 <= Number(skips[..j], |validators|, k)
    ensures Offline(EventsOf(validators, skips[..j]), limits, validators[k])
  {
    hide Number, Count, Last, WindowTime, IsReportOf, NeverProposes, Consecutive;
    var n := |validators|;
    var m := limits.window / n + 1;
    assert m >= 1;
    SkipsAreConsecutive(blocks, grace, skips, n, k);
    PrefixIsConsecutive(skips, n, k, j);
    var i := UpToLast(skips[..j], n, k);
    var upTo := skips[..j][..i];
    PrefixIsConsecutive(skips[..j], n, k, i);
    CountBack(upTo, n, k, m);
    var t := upTo[i - 1].step;
    assert (m - 1) * n <= limits.window by {
      assert limits.window == n * (m - 1) + limits.window % n;
    }
    CountGrows(upTo, n, k, t - limits.window, t - (m - 1) * n);
    WindowCountsSkips(validators, upTo, k, t - limits.window);
    FullWindowExceeds(n * Count(upTo, n, k, t - limits.window), n, Count(upTo, n, k, t - limits.window), limits);
    EventsPrefix(validators, skips[..j], i);
    var events := EventsOf(validators, skips[..j]);
    assert events[i - 1].validator == validators[k] && Exceeds(events[..i], limits);
  }

  lemma {:induction false} NumberGrows(skips: seq<SkippedProposal>, n: nat, k: nat, i: nat)
    requires n > 0 && i <= |skips|
    ensures Number(skips[..i], n, k) <= Number(skips, n, k)
    decreases |skips| - i
  {
    if i < |skips| {
      NumberGrows(skips, n, k, i + 1);
      assert skips[..i + 1][..i] == skips[..i];
    } else {
      assert skips[..i] == skips;
    }
  }

  /** The turn's steps from `first` on have all been reported, so there are that many skips. */
  lemma {:induction false} NumberOfTurns(
      blocks: seq<Block>, grace: nat, skips: seq<SkippedProposal>, n: nat, k: nat, first: int, i: nat) returns (j: nat)
    requires n > 0 && blocks != [] && IsReportOf(blocks, grace, skips) && NeverProposes(blocks, n, k)
    requires blocks[0].step < first && first % n == k && first + i * n + grace < LatestStep(blocks)
    ensures j < |skips| && skips[j].step == first + i * n
    ensures i + 1 <= Number(skips[..j + 1], n, k)
    decreases i
  {
    hide IsReportOf, NeverProposes, LatestStep, Number;
    TurnLater(first, n, i);
    assert 0 <= i * n;
    j := TurnIsMissed(blocks, grace, skips, n, k, first + i * n);
    NumberOfOneMore(skips, n, k, j);
    if i > 0 {
      assert i * n == (i - 1) * n + n;
      var h := NumberOfTurns(blocks, grace, skips, n, k, first, i - 1);
      EarlierStepComesFirst(blocks, grace, skips, h, j);
      NumberGrows(skips[..j], n, k, h + 1);
      assert skips[..j][..h + 1] == skips[..h + 1];
    }
  }

  lemma EarlierStepComesFirst(blocks: seq<Block>, grace: nat, skips: seq<SkippedProposal>, h: nat, j: nat)
    requires IsReportOf(blocks, grace, skips) && h < |skips| && j < |skips| && skips[h].step < skips[j].step
    ensures h < j
  {
  }

  lemma NumberOfOneMore(skips: seq<SkippedProposal>, n: nat, k: nat, j: nat)
    requires n > 0 && j < |skips| && skips[j].step % n == k
    ensures Number(skips[..j + 1], n, k) == Number(skips[..j], n, k) + 1
  {
    assert skips[..j + 1][..j] == skips[..j];
  }

  lemma {:induction false} TurnLater(first: int, n: nat, i: nat)
    requires n > 0
    ensures (first + i * n) % n == first % n
  {
    if i > 0 {
      TurnLater(first, n, i - 1);
      assert first + (i - 1) * n == first + i * n - n;
      TurnBefore(first + i * n, n);
    }
  }

  /** The first step of turn `k` after `s` comes within one round. */
  lemma NextTurn(s: nat, n: nat, k: nat) returns (t: int)
    requires k < n
    ensures s < t <= s + n && t % n == k
  {
    var q, r := s / n, s % n;
    assert s == q * n + r;
    if r < k {
      t := q * n + k;
      QuotientIsUnique(t, n, q, k);
    } else {
      t := (q + 1) * n + k;
      assert (q + 1) * n == q * n + n;
      QuotientIsUnique(t, n, q + 1, k);
    }
  }

  /**
   * End to end: whatever order blocks arrive in, a validator that never proposes after the first
   * block has been reported once a block is seen whose step is more than a grace period and
   * window / n + 1 rounds past the first one.
   */
  lemma DetectedBySteps(
      blocks: seq<Block>, grace: nat, skips: seq<SkippedProposal>, validators: seq<Address>, k: nat, limits: Limits)
    requires k < |validators| && AreDistinct(validators)
    requires limits.allowed <= limits.outOf && 0 < limits.outOf
    requires blocks != [] && IsReportOf(blocks, grace, skips) && NeverProposes(blocks, |validators|, k)
    requires blocks[0].step + grace + |validators| * (limits.window / |validators| + 1) < LatestStep(blocks)
    ensures Offline(EventsOf(validators, skips), limits, validators[k])
  {
    hide IsReportOf, NeverProposes, LatestStep, Number, Offline, AreDistinct;
    var n := |validators|;
    var i := limits.window / n;
    var first := NextTurn(blocks[0].step, n, k);
    assert first + i * n <= blocks[0].step + n * (i + 1) by {
      assert n * (i + 1) == i * n + n;
    }
    var j := NumberOfTurns(blocks, grace, skips, n, k, first, i);
    NumberGrows(skips, n, k, j + 1);
    assert skips[..|skips|] == skips;
    DetectedByNumberOfSkips(blocks, grace, skips, validators, k, limits, |skips|);
  }
}
