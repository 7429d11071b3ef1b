/**
 When an alarm of the 32-bit tick counter fires, in unbounded time: T counts ticks since reset and
 the counter shows T modulo 2^32.
 */
module AlarmClock {
  import opened Bits

  /** The counter after T ticks. */
  function Shown(T: nat): u32 {
    T % U32
  }

  /** The first tick of the counter period that T lies in. */
  function PeriodStart(T: nat): nat {
    T - T % U32
  }

  /** The first tick after T at which an alarm with this time and roll-over flag fires. */
  function FireAt(time: u32, rollover: bool, T: nat): nat {
    if rollover || Shown(T) == U32 - 1 then PeriodStart(T) + U32 + time
    else if time <= Shown(T) + 1 then T + 1
    else PeriodStart(T) + time
  }

  /** The roll-over flag as one tick leaves it. */
  function FlagAfterTick(rollover: bool, T: nat): bool {
    rollover && Shown(T + 1) != 0
  }

  /** The test the tick handler makes, after it has updated counter and flag. */
  predicate Fires(time: u32, rollover: bool, T: nat) {
    time <= Shown(T + 1) && !FlagAfterTick(rollover, T)
  }

  /** The handler fires an alarm at exactly the predicted tick, and until then the prediction stands. */
  lemma TickMeetsPrediction(time: u32, rollover: bool, T: nat)
    ensures Fires(time, rollover, T) <==> FireAt(time, rollover, T) == T + 1
    ensures !Fires(time, rollover, T) ==> FireAt(time, FlagAfterTick(rollover, T), T + 1) == FireAt(time, rollover, T)
    ensures FireAt(time, rollover, T) > T
  {
    NextShown(T);
  }

  /** The flag after the ticks T+1..t, as long as the alarm does not fire. */
  function FlagAt(rollover: bool, T: nat, t: nat): bool
    requires T <= t
    decreases t
  {
    if t == T then rollover else FlagAfterTick(FlagAt(rollover, T, t - 1), t - 1)
  }

  /** Tick t is the first after T whose test succeeds. */
  ghost predicate FiresFirst(time: u32, rollover: bool, T: nat, t: nat) {
    && T < t
    && Fires(time, FlagAt(rollover, T, t - 1), t - 1)
    && forall u: nat :: T <= u < t - 1 ==> !Fires(time, FlagAt(rollover, T, u), u)
  }

  /** As long as no earlier test succeeded the prediction is unchanged, over any number of wraps. */
  lemma {:induction false} PredictionStands(time: u32, rollover: bool, T: nat, t: nat)
    requires T <= t && forall u: nat :: T <= u < t ==> !Fires(time, FlagAt(rollover, T, u), u)
    ensures FireAt(time, FlagAt(rollover, T, t), t) == FireAt(time, rollover, T)
    decreases t
  {
    if T < t {
      PredictionStands(time, rollover, T, t - 1);
      TickMeetsPrediction(time, FlagAt(rollover, T, t - 1), t - 1);
    }
  }

  /** The alarm fires first at the predicted tick: not early, not late, not never. */
  lemma FirstFiring(time: u32, rollover: bool, T: nat, t: nat)
    ensures FiresFirst(time, rollover, T, t) <==> t == FireAt(time, rollover, T)
  {
    hide Fires, FireAt, FlagAfterTick;
    if FiresFirst(time, rollover, T, t) {
      PredictionStands(time, rollover, T, t - 1);
      TickMeetsPrediction(time, FlagAt(rollover, T, t - 1), t - 1);
    }
    if t == FireAt(time, rollover, T) {
      TickMeetsPrediction(time, rollover, T);
      NothingEarlier(time, rollover, T, t - 1);
      PredictionStands(time, rollover, T, t - 1);
      TickMeetsPrediction(time, FlagAt(rollover, T, t - 1), t - 1);
    }
  }

  lemma {:induction false} NothingEarlier(time: u32, rollover: bool, T: nat, t: nat)
    requires T <= t < FireAt(time, rollover, T)
    ensures forall u: nat :: T <= u < t ==> !Fires(time, FlagAt(rollover, T, u), u)
    decreases t
  {
    hide Fires, FireAt, FlagAfterTick;
    if T < t {
      NothingEarlier(time, rollover, T, t - 1);
      PredictionStands(time, rollover, T, t - 1);
      TickMeetsPrediction(time, FlagAt(rollover, T, t - 1), t - 1);
    }
  }

  lemma NextShown(T: nat)
    ensures Shown(T + 1) == if Shown(T) == U32 - 1 then 0 else Shown(T) + 1
    ensures PeriodStart(T + 1) == if Shown(T) == U32 - 1 then PeriodStart(T) + U32 else PeriodStart(T)
  {
  }

  /** What alt_alarm_start stores: the due time and whether the counter wraps before it. */
  function StartTime(nticks: u32, T: nat): u32 {
    Wrap32(nticks + Shown(T) + 1)
  }

  /**
   A new alarm fires nticks + 1 ticks later, except for the longest delay: that one fires on the
   very next tick, unless the counter is just about to wrap.
   */
  lemma StartIsExact(nticks: u32, T: nat)
    ensures FireAt(StartTime(nticks, T), StartTime(nticks, T) < Shown(T), T) == T + nticks + 1
       <==> nticks <= U32 - 2 || Shown(T) == U32 - 1
    ensures nticks == U32 - 1 && Shown(T) != U32 - 1 ==>
          FireAt(StartTime(nticks, T), StartTime(nticks, T) < Shown(T), T) == T + 1
    ensures (T + nticks + 1) % U32 == StartTime(nticks, T)
  {
  }

  /** An alarm that fires on its time and asks for k more ticks fires again exactly k ticks later. */
  lemma RearmIsExact(k: u32, T: nat)
    requires k > 0
    ensures FireAt(Wrap32(Shown(T) + k), Wrap32(Shown(T) + k) < Shown(T), T) == T + k
    ensures (T + k) % U32 == Wrap32(Shown(T) + k)
  {
  }

  /**
   When an alarm that has just fired at tick now fires next if its callback asked for k more ticks. An alarm whose
   stored time is one tick behind catches up with the first longer period, and misses a whole round of the counter
   if it is behind at its end.
   */
  function NextDue(behind: bool, now: nat, k: nat): nat
    requires k > 0
  {
    if !behind then now + k
    else if k >= 2 then now + k - 1
    else if Shown(now) != U32 - 1 then now + 1
    else now + U32
  }

  function StaysBehind(behind: bool, now: nat, k: nat): bool {
    behind && k == 1 && Shown(now) != U32 - 1
  }

  lemma BehindRearm(k: u32, T: nat)
    requires k > 0 && Shown(T) > 0
    ensures var time := Wrap32(Shown(T) - 1 + k);
            && FireAt(time, time < Shown(T), T) == NextDue(true, T, k)
            && (NextDue(true, T, k) - if StaysBehind(true, T, k) then 1 else 0) % U32 == time
  {
  }

  /** An alarm behind its time fires on the very next tick, and that is not the first of a round. */
  lemma BehindIsNext(time: u32, rollover: bool, T: nat)
    requires FireAt(time, rollover, T) > 0 && (FireAt(time, rollover, T) - 1) % U32 == time
    ensures FireAt(time, rollover, T) == T + 1 && Shown(T + 1) == time + 1
  {
  }

  /** The sum of the first j periods. */
  function Elapsed(periods: seq<nat>, j: nat): nat
    requires j <= |periods|
  {
    if j == 0 then 0 else Elapsed(periods, j - 1) + periods[j - 1]
  }

  lemma {:induction false} ElapsedPrefix(periods: seq<nat>, k: nat, j: nat)
    requires j <= |periods|
    ensures Elapsed(periods + [k], j) == Elapsed(periods, j)
  {
    if j > 0 {
      ElapsedPrefix(periods, k, j - 1);
    }
  }
}
