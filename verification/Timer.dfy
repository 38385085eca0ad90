// The millisecond timer over a 32-bit clock that wraps (millisec_timer.c).

module Timer {
  import opened Mask

  const WRAP: nat := 0x1_0000_0000

  datatype TimerValue = TimerValue(enabled: bool, setTime: nat, expireTime: nat)

  predicate InRange(t: TimerValue) {
    t.setTime < WRAP && t.expireTime < WRAP
  }

  /** Milliseconds from `since` to `now` on the wrapping clock. */
  function Elapsed(since: nat, now: nat): nat {
    (now - since) % WRAP
  }

  function Interval(t: TimerValue): nat {
    Elapsed(t.setTime, t.expireTime)
  }

  predicate Expired(t: TimerValue, now: nat) {
    t.enabled && Elapsed(t.setTime, now) >= Interval(t)
  }

  /** A one-shot timer disables itself when it fires. */
  function AfterOnce(t: TimerValue, now: nat): TimerValue {
    if Expired(t, now) then t.(enabled := false) else t
  }

  /** A repeating timer moves its window on by its interval when it fires, wherever `now` is. */
  function AfterRepeat(t: TimerValue, now: nat): TimerValue {
    if Expired(t, now) then t.(setTime := t.expireTime, expireTime := (t.expireTime + Interval(t)) % WRAP) else t
  }

  class MillisecTimer {
    var enabled: bool
    var setTime: nat
    var expireTime: nat

    ghost function Value(): TimerValue
      reads this
    {
      TimerValue(enabled, setTime, expireTime)
    }

    method SetRel(now: nat, rel: nat)
      requires now < WRAP && rel < WRAP
      modifies this
      ensures InRange(Value()) && enabled && setTime == now && Interval(Value()) == rel
      ensures expireTime == (now + rel) % 0x1_0000_0000
      ensures forall s: nat :: s % WRAP == now && 0 < rel ==> Tracks(Value(), s, rel)
    {
      enabled := true;
      setTime := now;
      expireTime := (now + rel) % WRAP;
      forall s: nat | s % WRAP == now ensures (now + rel) % WRAP == (s + rel) % WRAP {
        ModuloSum(s, rel);
      }
    }

    method IsExpired(now: nat) returns (expired: bool)
      requires InRange(Value()) && now < WRAP
      modifies this
      ensures expired <==> Expired(old(Value()), now)
      ensures Value() == AfterOnce(old(Value()), now)
      ensures enabled <==> old(enabled) && !expired
      ensures setTime == old(setTime) && expireTime == old(expireTime)
    {
      ThreeWays(Value(), now);
      if enabled {
        if || expireTime == setTime
           || (expireTime > setTime && (now >= expireTime || now < setTime))
           || (expireTime < setTime && now >= expireTime && now < setTime) {
          enabled := false;
          return true;
        }
      }
      return false;
    }

    method IsExpiredRepeat(now: nat) returns (expired: bool)
      requires InRange(Value()) && now < WRAP
      modifies this
      ensures InRange(Value())
      ensures expired <==> Expired(old(Value()), now)
      ensures Value() == AfterRepeat(old(Value()), now)
      ensures enabled == old(enabled) && setTime == if expired then old(expireTime) else old(setTime)
      ensures expireTime ==
        if expired then (old(expireTime) + (old(expireTime) - old(setTime)) % 0x1_0000_0000) % 0x1_0000_0000
        else old(expireTime)
    {
      ThreeWays(Value(), now);
      ZeroInterval(Value());
      if enabled {
        if expireTime == setTime {
          return true;
        } else if || (expireTime > setTime && (now >= expireTime || now < setTime))
                  || (expireTime < setTime && now >= expireTime && now < setTime) {
          var oldExpireTime := expireTime;
          expireTime := (oldExpireTime + (oldExpireTime - setTime) % WRAP) % WRAP;
          setTime := oldExpireTime;
          return true;
        }
      }
      return false;
    }
  }

  /** The three comparisons decide whether the time elapsed on the wrapping clock has reached the interval. */
  lemma ThreeWays(t: TimerValue, now: nat)
    requires InRange(t) && now < WRAP
    ensures
      (|| t.expireTime == t.setTime
       || (t.expireTime > t.setTime && (now >= t.expireTime || now < t.setTime))
       || (t.expireTime < t.setTime && now >= t.expireTime && now < t.setTime))
      <==> (now - t.setTime) % 0x1_0000_0000 >= (t.expireTime - t.setTime) % 0x1_0000_0000
  {
    ElapsedCases(t.setTime, now);
    ElapsedCases(t.setTime, t.expireTime);
  }

  lemma ElapsedCases(since: nat, now: nat)
    requires since < WRAP && now < WRAP
    ensures Elapsed(since, now) == if since <= now then now - since else now - since + WRAP
  {
    if since > now {
      assert (now - since + WRAP) % WRAP == (now - since) % WRAP;
    }
  }

  /** A period of zero moves nothing. */
  lemma ZeroInterval(t: TimerValue)
    requires InRange(t)
    ensures t.expireTime == t.setTime ==> t.expireTime == (t.expireTime + Interval(t)) % WRAP
  {
  }

  // ---- Runs of a one-shot timer ----

  function OnceAnswers(t: TimerValue, nows: seq<nat>): (r: seq<bool>)
    ensures |r| == |nows|
    decreases |nows|
  {
    if nows == [] then [] else [Expired(t, nows[0])] + OnceAnswers(AfterOnce(t, nows[0]), nows[1..])
  }

  /** A one-shot timer answers true to the first poll that finds the interval elapsed, and to no other. */
  lemma {:induction false} FiresOnce(t: TimerValue, nows: seq<nat>, i: nat)
    requires i < |nows|
    ensures OnceAnswers(t, nows)[i]
      <==> t.enabled && Elapsed(t.setTime, nows[i]) >= Interval(t)
           && forall j :: 0 <= j < i ==> Elapsed(t.setTime, nows[j]) < Interval(t)
    decreases i
  {
    hide Elapsed, Interval;
    if i > 0 {
      var u, rest := AfterOnce(t, nows[0]), nows[1..];
      FiresOnce(u, rest, i - 1);
      assert OnceAnswers(t, nows)[i] == OnceAnswers(u, rest)[i - 1];
      assert forall j :: 0 < j < i ==> nows[j] == rest[j - 1];
      assert forall j :: 0 <= j < i - 1 ==> rest[j] == nows[j + 1];
    }
  }

  // ---- Runs of a repeating timer, polled at the times of a clock that does not wrap ----

  /** The timer after polls at these times. */
  function After(t: TimerValue, times: seq<nat>): TimerValue
    decreases |times|
  {
    if times == [] then t else AfterRepeat(After(t, times[..|times| - 1]), times[|times| - 1] % WRAP)
  }

  function Answers(t: TimerValue, times: seq<nat>): (r: seq<bool>)
    ensures |r| == |times|
    decreases |times|
  {
    if times == [] then []
    else
      var n := |times| - 1;
      Answers(t, times[..n]) + [Expired(After(t, times[..n]), times[n] % WRAP)]
  }

  function Fires(answers: seq<bool>): nat {
    if answers == [] then 0
    else Fires(answers[..|answers| - 1]) + if answers[|answers| - 1] then 1 else 0
  }

  /** The timer was last set, or last fired, at the true time s, and its period is r. */
  predicate Tracks(t: TimerValue, s: nat, r: nat) {
    t.enabled && 0 < r < WRAP && t.setTime == s % WRAP && t.expireTime == (s + r) % WRAP
  }

  /** The time at which a timer was set, plus as many periods as it has fired in polls at these times. */
  function TrueSetTime(t: TimerValue, s: nat, r: nat, times: seq<nat>): nat {
    s + Fires(Answers(t, times)) * r
  }

  lemma ModuloDifference(a: nat, b: nat)
    ensures Elapsed(a % WRAP, b % WRAP) == (b - a) % WRAP
  {
    var x, y := a / WRAP, b / WRAP;
    assert b - a == (b % WRAP - a % WRAP) + WRAP * (y - x);
    AddMultiple(b % WRAP - a % WRAP, y - x);
  }

  lemma AddMultiple(d: int, k: int)
    ensures (d + WRAP * k) % WRAP == d % WRAP
  {
    var q := d / WRAP;
    assert d + WRAP * k == WRAP * (q + k) + d % WRAP;
  }

  lemma ModuloSum(a: nat, r: nat)
    requires r < WRAP
    ensures (a % WRAP + r) % WRAP == (a + r) % WRAP
  {
    assert a + r == (a % WRAP + r) + WRAP * (a / WRAP);
    AddMultiple(a % WRAP + r, a / WRAP);
  }

  /** Against the true clock, a poll fires exactly when the time since the set time, modulo 2^32, reaches the period. */
  lemma ExpiredExact(t: TimerValue, s: nat, r: nat, time: nat)
    requires Tracks(t, s, r)
    ensures Interval(t) == r
    ensures Expired(t, time % WRAP) <==> (time - s) % WRAP >= r
  {
    ModuloDifference(s, time);
    ModuloDifference(s, s + r);
    hide Elapsed;
  }

  /** A poll that fires leaves a timer set one period later, whenever it comes. */
  lemma PollTracks(t: TimerValue, s: nat, r: nat, time: nat)
    requires Tracks(t, s, r)
    ensures Tracks(AfterRepeat(t, time % WRAP), if Expired(t, time % WRAP) then s + r else s, r)
  {
    ExpiredExact(t, s, r, time);
    ModuloSum(s + r, r);
    hide Expired, Interval;
  }

  /** One more poll moves the true set time on by a period if it fires. */
  lemma TrueSetTimeStep(t: TimerValue, s: nat, r: nat, times: seq<nat>)
    requires times != []
    ensures var n := |times| - 1;
      TrueSetTime(t, s, r, times) == TrueSetTime(t, s, r, times[..n]) + if Answers(t, times)[n] then r else 0
  {
    hide Expired, After;
    var n := |times| - 1;
    assert Answers(t, times)[..n] == Answers(t, times[..n]);
    Distribute(Fires(Answers(t, times[..n])), r);
  }

  lemma Distribute(n: nat, r: nat)
    ensures (n + 1) * r == n * r + r
  {
  }

  lemma LastAnswer(t: TimerValue, times: seq<nat>)
    requires times != []
    ensures var n := |times| - 1;
      && Answers(t, times)[n] == Expired(After(t, times[..n]), times[n] % WRAP)
      && After(t, times) == AfterRepeat(After(t, times[..n]), times[n] % WRAP)
  {
    hide Expired, AfterRepeat;
  }

  lemma {:induction false} AnswerAt(t: TimerValue, times: seq<nat>, i: nat)
    requires i < |times|
    ensures Answers(t, times)[i] == Expired(After(t, times[..i]), times[i] % WRAP)
    decreases |times|
  {
    hide Expired, After;
    var n := |times| - 1;
    if i < n {
      AnswerAt(t, times[..n], i);
      assert times[..n][..i] == times[..i];
    }
  }

  /**
   * A repeating timer does not drift: after any polls, early, late or out of order, its true set time is the time it
   * was set plus as many periods as it has fired.
   */
  lemma {:induction false} DriftFree(t: TimerValue, s: nat, r: nat, times: seq<nat>)
    requires Tracks(t, s, r)
    ensures Tracks(After(t, times), TrueSetTime(t, s, r, times), r)
    decreases |times|
  {
    if times == [] {
    } else {
      hide *;
      var n := |times| - 1;
      DriftFree(t, s, r, times[..n]);
      PollTracks(After(t, times[..n]), TrueSetTime(t, s, r, times[..n]), r, times[n]);
      LastAnswer(t, times);
      TrueSetTimeStep(t, s, r, times);
    }
  }

  /** Every poll of a run fires exactly when the time since the true set time it finds, modulo 2^32, reaches the period. */
  lemma FiresExact(t: TimerValue, s: nat, r: nat, times: seq<nat>, i: nat)
    requires Tracks(t, s, r) && i < |times|
    ensures Answers(t, times)[i] <==> (times[i] - TrueSetTime(t, s, r, times[..i])) % WRAP >= r
  {
    hide *;
    AnswerAt(t, times, i);
    DriftFree(t, s, r, times[..i]);
    ExpiredExact(After(t, times[..i]), TrueSetTime(t, s, r, times[..i]), r, times[i]);
  }

  /** No fire is early: a poll that fires comes at least one period after the true set time it finds. */
  lemma {:induction false} NeverEarly(t: TimerValue, s: nat, r: nat, times: seq<nat>, i: nat)
    requires Tracks(t, s, r) && i < |times|
    requires forall k :: 0 <= k < |times| ==> s <= times[k]
    requires forall j, k :: 0 <= j <= k < |times| ==> times[j] <= times[k]
    ensures TrueSetTime(t, s, r, times[..i]) <= times[i]
    ensures Answers(t, times)[i] ==> TrueSetTime(t, s, r, times[..i]) + r <= times[i]
    decreases i
  {
    assert i > 0 ==> times[i - 1] <= times[i];
    assert s <= times[i];
    assert times[..0] == [];
    TrueSetTimeNone(t, s, r);
    hide *;
    if i > 0 {
      NeverEarly(t, s, r, times, i - 1);
      assert times[..i][..i - 1] == times[..i - 1];
      TrueSetTimeStep(t, s, r, times[..i]);
      AnswerAt(t, times[..i], i - 1);
      AnswerAt(t, times, i - 1);
    }
    FiresExact(t, s, r, times, i);
    RemainderSmaller(times[i] - TrueSetTime(t, s, r, times[..i]));
  }

  lemma TrueSetTimeNone(t: TimerValue, s: nat, r: nat)
    ensures TrueSetTime(t, s, r, []) == s
  {
  }

  lemma RemainderSmaller(d: nat)
    ensures d % WRAP <= d
    ensures d < WRAP ==> d % WRAP == d
  {
  }

  /**
   * None is missed: a poll that comes less than 2^32 ms after the true set time it finds fires exactly when one more
   * period has passed than has fired.
   */
  lemma FiresOnTime(t: TimerValue, s: nat, r: nat, times: seq<nat>, i: nat)
    requires Tracks(t, s, r) && i < |times|
    requires forall k :: 0 <= k < |times| ==> s <= times[k]
    requires forall j, k :: 0 <= j <= k < |times| ==> times[j] <= times[k]
    requires times[i] < TrueSetTime(t, s, r, times[..i]) + WRAP
    ensures Answers(t, times)[i] <==> TrueSetTime(t, s, r, times[..i]) + r <= times[i]
  {
    hide *;
    NeverEarly(t, s, r, times, i);
    FiresExact(t, s, r, times, i);
    RemainderSmaller(times[i] - TrueSetTime(t, s, r, times[..i]));
  }

  /** Polling until the answer is false has fired once for every whole period that has passed. */
  lemma PolledUntilFalse(t: TimerValue, s: nat, r: nat, times: seq<nat>, i: nat)
    requires Tracks(t, s, r) && i < |times| && !Answers(t, times)[i]
    requires forall k :: 0 <= k < |times| ==> s <= times[k]
    requires forall j, k :: 0 <= j <= k < |times| ==> times[j] <= times[k]
    requires times[i] < TrueSetTime(t, s, r, times[..i]) + WRAP
    ensures Fires(Answers(t, times[..i])) == (times[i] - s) / r
  {
    hide *;
    TracksPeriod(t, s, r);
    NeverEarly(t, s, r, times, i);
    FiresOnTime(t, s, r, times, i);
    FloorOfSetTime(t, s, r, times[..i], times[i]);
  }

  lemma TracksPeriod(t: TimerValue, s: nat, r: nat)
    requires Tracks(t, s, r)
    ensures 0 < r
  {
  }

  lemma FloorOfSetTime(t: TimerValue, s: nat, r: nat, times: seq<nat>, time: nat)
    requires 0 < r && TrueSetTime(t, s, r, times) <= time < TrueSetTime(t, s, r, times) + r
    ensures s <= time && Fires(Answers(t, times)) == (time - s) / r
  {
    hide Fires, Answers;
    Quotient(time - s, r, Fires(Answers(t, times)), Fires(Answers(t, times)) * r);
  }

  lemma Quotient(d: nat, r: nat, n: nat, p: nat)
    requires 0 < r && p == n * r && p <= d < p + r
    ensures d / r == n
  {
    assert p == r * n;
    hide *;
    DivisionUnique(d, r, n, d - p);
  }

  /** A period of zero fires at every poll and never moves. */
  lemma ZeroPeriod(t: TimerValue, now: nat)
    requires InRange(t) && t.enabled && Interval(t) == 0
    ensures Expired(t, now) && AfterRepeat(t, now) == t
  {
    ElapsedCases(t.setTime, t.expireTime);
  }

  /** A timer set to 2 ms one millisecond before the clock wraps fires at clock value 1, once. */
  method OnceAcrossTheWrap() returns (answers: seq<bool>)
    ensures answers == [false, false, true, false]
  {
    var timer := new MillisecTimer;
    timer.SetRel(0xFFFF_FFFF, 2);
    var a := timer.IsExpired(0xFFFF_FFFF);
    var b := timer.IsExpired(0);
    var c := timer.IsExpired(1);
    var d := timer.IsExpired(2);
    answers := [a, b, c, d];
  }

  /** A period of 2 ms across the wrap: fires at 1 and 3, and catches up with 5 when it is next polled at 6. */
  method RepeatAcrossTheWrap() returns (answers: seq<bool>)
    ensures answers == [false, true, false, true, true, false]
  {
    var timer := new MillisecTimer;
    timer.SetRel(0xFFFF_FFFF, 2);
    var a := timer.IsExpiredRepeat(0);
    var b := timer.IsExpiredRepeat(1);
    assert timer.setTime == 1 && timer.expireTime == 3;
    hide AfterRepeat;
    var c := timer.IsExpiredRepeat(2);
    var d := timer.IsExpiredRepeat(3);
    assert timer.setTime == 3 && timer.expireTime == 5;
    var e := timer.IsExpiredRepeat(6);
    assert timer.setTime == 5 && timer.expireTime == 7;
    var f := timer.IsExpiredRepeat(6);
    answers := [a, b, c, d, e, f];
  }
}
