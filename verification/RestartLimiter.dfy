// The crash-restart limiter of the language client: a sliding window of crash times.
module RestartLimiter {

  const WINDOW: int := 3 * 60 * 1000  // milliseconds

  datatype CloseAction = Restart | DoNotRestart

  // The window kept and the refusals so far, and what the latest crash was answered.
  datatype History = History(restarts: seq<int>, refusals: nat)

  function Answer(restarts: seq<int>, now: int, max: nat): CloseAction {
    var pushed := restarts + [now];
    if |pushed| <= max then Restart
    else if pushed[|pushed| - 1] - pushed[0] <= WINDOW then DoNotRestart
    else Restart
  }

  function Close(h: History, now: int, max: nat): History {
    var pushed := h.restarts + [now];
    if Answer(h.restarts, now, max).DoNotRestart? then History(pushed, h.refusals + 1)
    else if |pushed| <= max then History(pushed, h.refusals)
    else History(pushed[1..], h.refusals)
  }

  class ReportingErrorHandler {
    const maxRestartCount: nat
    var restarts: seq<int>
    ghost var refusals: nat

    constructor (maxRestartCount: nat)
      ensures this.maxRestartCount == maxRestartCount && restarts == [] && refusals == 0
    {
      this.maxRestartCount := maxRestartCount;
      restarts := [];
      refusals := 0;
    }

    method Closed(now: int) returns (action: CloseAction)
      modifies this
      ensures action == Answer(old(restarts), now, maxRestartCount)
      ensures History(restarts, refusals) == Close(History(old(restarts), old(refusals)), now, maxRestartCount)
    {
      restarts := restarts + [now];
      if |restarts| <= maxRestartCount {
        action := Restart;
      } else {
        var diff := restarts[|restarts| - 1] - restarts[0];
        if diff <= WINDOW {
          action := DoNotRestart;
          refusals := refusals + 1;
        } else {
          restarts := restarts[1..];
          action := Restart;
        }
      }
    }
  }

  // ---------------------------------------------------------------- whole runs

  function After(times: seq<int>, max: nat): History {
    if times == [] then History([], 0) else Close(After(times[..|times| - 1], max), times[|times| - 1], max)
  }

  // The answer to the i-th crash of a run.
  function AnswerTo(times: seq<int>, i: nat, max: nat): CloseAction
    requires i < |times|
  {
    Answer(After(times[..i], max).restarts, times[i], max)
  }

  function WindowSize(times: seq<int>, max: nat): nat {
    var full := max + After(times, max).refusals;
    if |times| < full then |times| else full
  }

  // The limiter holds exactly the last crash times: as many as it allows, and one more for
  // each refusal.
  lemma {:induction false} HoldsLastCrashes(times: seq<int>, max: nat)
    ensures After(times, max).restarts == times[|times| - WindowSize(times, max)..]
    ensures After(times, max).refusals == 0 || max + After(times, max).refusals <= |times|
  {
    if times != [] {
      var before, now := times[..|times| - 1], times[|times| - 1];
      HoldsLastCrashes(before, max);
      var from := |before| - WindowSize(before, max);
      WindowMoves(times, from);
      assert After(times, max) == Close(After(before, max), now, max);
    }
  }

  lemma WindowMoves(times: seq<int>, from: nat)
    requires from < |times|
    ensures times[..|times| - 1][from..] + [times[|times| - 1]] == times[from..]
    ensures times[from..][1..] == times[from + 1..]
  {
  }

  // A crash is refused exactly when the one that many crashes ago lies within three minutes;
  // "that many" is the allowance plus the refusals before.
  lemma {:induction false} AnswerExact(times: seq<int>, i: nat, max: nat)
    requires i < |times|
    ensures var full := max + After(times[..i], max).refusals;
      AnswerTo(times, i, max).DoNotRestart? <==> full <= i && times[i] - times[i - full] <= 180_000
  {
    HoldsLastCrashes(times[..i], max);
    var h := After(times[..i], max);
    assert h.restarts == times[i - WindowSize(times[..i], max)..i];
    AnswerFromHeld(times, i, max, h);
  }

  lemma AnswerFromHeld(times: seq<int>, i: nat, max: nat, h: History)
    requires i < |times| && (h.refusals == 0 || max + h.refusals <= i)
    requires var full := max + h.refusals; h.restarts == times[i - (if i < full then i else full)..i]
    ensures Answer(h.restarts, times[i], max).DoNotRestart?
      <==> max + h.refusals <= i && times[i] - times[i - (max + h.refusals)] <= 180_000
  {
  }

  ghost predicate NonDecreasing(times: seq<int>) {
    forall i, j :: 0 <= i <= j < |times| ==> times[i] <= times[j]
  }

  lemma {:induction false} NoRefusalYet(times: seq<int>, i: nat, max: nat)
    requires i <= |times| && forall k :: 0 <= k < i ==> AnswerTo(times, k, max).Restart?
    ensures After(times[..i], max).refusals == 0
  {
    if i > 0 {
      assert AnswerTo(times, i - 1, max).Restart?;
      assert times[..i][..i - 1] == times[..i - 1] && times[..i][i - 1] == times[i - 1];
      NoRefusalYet(times, i - 1, max);
    }
  }

  // Before the first refusal, no window of three minutes holds more restarts than allowed:
  // of any max + 1 of them, the last is more than three minutes after the first.
  lemma GrantsAreSpread(times: seq<int>, i: nat, j: nat, max: nat)
    requires NonDecreasing(times) && i + max <= j < |times|
    requires forall k :: 0 <= k <= j ==> AnswerTo(times, k, max).Restart?
    ensures WINDOW < times[j] - times[i]
  {
    NoRefusalYet(times, j, max);
    AnswerExact(times, j, max);
  }

  // A refusal tells the truth, whatever came before: the server crashed max + 1 times in the
  // last three minutes.
  lemma RefusalIsTrue(times: seq<int>, i: nat, max: nat)
    requires NonDecreasing(times) && i < |times| && AnswerTo(times, i, max).DoNotRestart?
    ensures max <= i && forall k :: i - max <= k <= i ==> times[i] - WINDOW <= times[k] <= times[i]
  {
    AnswerExact(times, i, max);
  }

  // A restart after r refusals only says that the crash max + r crashes ago, if there was one,
  // lies more than three minutes back.
  lemma GrantAfterRefusals(times: seq<int>, i: nat, max: nat)
    requires i < |times| && AnswerTo(times, i, max).Restart?
    ensures var full := max + After(times[..i], max).refusals; full <= i ==> WINDOW < times[i] - times[i - full]
  {
    AnswerExact(times, i, max);
  }

  // One crash a millisecond, and a pause of three minutes once one has been refused.
  function Burst(max: nat): (times: seq<int>)
    ensures |times| == 2 * max + 2
    ensures forall i :: 0 <= i < |times| ==> times[i] == if i <= max then i else WINDOW + 1 + i
  {
    seq(2 * max + 2, i requires 0 <= i < 2 * max + 2 => if i <= max then i else WINDOW + 1 + i)
  }

  lemma {:induction false} BurstRefusals(max: nat, i: nat)
    requires i <= 2 * max + 2 && max <= WINDOW
    ensures After(Burst(max)[..i], max).refusals == if i <= max then 0 else 1
    decreases i
  {
    if i > 0 {
      BurstRefusals(max, i - 1);
      BurstStep(max, i - 1);
      RefusalsAfter(Burst(max), i - 1, max);
    }
  }

  lemma BurstStep(max: nat, i: nat)
    requires i < 2 * max + 2 && max <= WINDOW
    requires After(Burst(max)[..i], max).refusals == if i <= max then 0 else 1
    ensures AnswerTo(Burst(max), i, max).DoNotRestart? <==> i == max
  {
    AnswerExact(Burst(max), i, max);
  }

  lemma RefusalsAfter(times: seq<int>, i: nat, max: nat)
    requires i < |times|
    ensures After(times[..i + 1], max).refusals
      == After(times[..i], max).refusals + if AnswerTo(times, i, max).DoNotRestart? then 1 else 0
  {
    assert times[..i + 1][..i] == times[..i] && times[..i + 1][i] == times[i];
  }

  // A refusal is never taken out of the window again, so each one loosens the limiter for
  // good: after it, one more crash than allowed is restarted within as many milliseconds.
  lemma RefusalLoosensLimiter(max: nat)
    requires max <= WINDOW
    ensures var times := Burst(max);
      NonDecreasing(times) && AnswerTo(times, max, max).DoNotRestart?
      && (forall k :: max < k < |times| ==> AnswerTo(times, k, max).Restart?)
      && |times| - (max + 1) == max + 1 && times[|times| - 1] - times[max + 1] == max
  {
    forall k | 0 <= k < 2 * max + 2
      ensures AnswerTo(Burst(max), k, max).DoNotRestart? <==> k == max
    {
      BurstRefusals(max, k);
      BurstStep(max, k);
    }
  }
}
