/**
 The system clock's alarm list: a circular doubly linked list with a head element, walked by the
 tick handler while alarms may remove themselves.
 */
module AlarmList {
  import opened Bits
  import opened AlarmClock

  const ENOTSUP: int := 134
  const EINVAL: int := 22

  /**
   The unbounded tick an alarm fires at next, the tick its first firing was set for, and the ticks
   at which its callback ran with what each call returned; whether it was started exactly, and whether its
   stored time is one tick behind.
   */
  datatype Log = Log(due: nat, first: nat, fired: seq<nat>, periods: seq<nat>, exact: bool, behind: bool)
  {
    /** Every firing, and the next one, is at the first plus the running sum of the returned periods. */
    ghost predicate OnSchedule() {
      && |fired| == |periods|
      && due == first + Elapsed(periods, |periods|)
      && forall j :: 0 <= j < |fired| ==> fired[j] == first + Elapsed(periods, j)
    }
  }

  /**
   The log across one visit at tick now: one firing exactly if the alarm was due, and removal (stop)
   exactly if that firing asked for no further callback.
   */
  ghost predicate Outcome(was: Log, log: Log, now: nat, stop: bool) {
    if was.due == now then
      && log.first == was.first && log.fired == was.fired + [now] && log.exact == was.exact
      && |log.periods| == |was.periods| + 1 && log.periods[..|was.periods|] == was.periods
      && var k := log.periods[|was.periods|];
      && stop == (k == 0)
      && (k != 0 ==> log.due == NextDue(was.behind, now, k) && log.behind == StaysBehind(was.behind, now, k))
    else !stop && log == was
  }

  /** The stored time and flag predict the due tick; a log that was started exactly is on schedule. */
  ghost predicate Armed(time: u32, rollover: bool, log: Log, T: nat) {
    && log.due == FireAt(time, rollover, T) > 0
    && (log.due - if log.behind then 1 else 0) % U32 == time
    && (log.exact ==> log.OnSchedule() && !log.behind)
  }

  /** An armed alarm is never overdue: a due tick that has come has been served. */
  lemma NothingOverdue(time: u32, rollover: bool, log: Log, T: nat)
    requires Armed(time, rollover, log, T)
    ensures T < log.due && (Fires(time, rollover, T) <==> log.due == T + 1)
    ensures log.exact ==>
              forall j :: 0 <= j < |log.fired| ==> log.fired[j] == log.first + Elapsed(log.periods, j) <= log.due
  {
    TickMeetsPrediction(time, rollover, T);
    hide FireAt;
    if log.exact {
      forall j | 0 <= j < |log.fired|
        ensures log.first + Elapsed(log.periods, j) <= log.due
      {
        ElapsedGrows(log.periods, j, |log.periods|);
      }
    }
  }

  lemma {:induction false} ElapsedGrows(periods: seq<nat>, i: nat, j: nat)
    requires i <= j <= |periods|
    ensures Elapsed(periods, i) <= Elapsed(periods, j)
  {
    if i < j {
      ElapsedGrows(periods, i, j - 1);
    }
  }

  class Alarm {
    var next: Alarm
    var previous: Alarm
    var time: u32
    var rollover: bool
    ghost var log: Log

    constructor ()
      ensures next == this && previous == this
    {
      next := this;
      previous := this;
      time := 0;
      rollover := false;
      log := Log(0, 0, [], [], false, false);
    }

    /** Set the due time n + 1 ticks ahead of the counter's value now. */
    method Arm(n: u32, now: u32, ghost T: nat)
      requires now == Shown(T)
      modifies `time, `rollover, `log
      ensures log.fired == [] && log.first == log.due && log.behind == !log.exact
      ensures log.exact <==> n <= U32 - 2 || now == U32 - 1
      ensures log.due == if log.exact then T + n + 1 else T + 1
      ensures Armed(time, rollover, log, T)
    {
      StartIsExact(n, T);
      time := Wrap32(n + now + 1);
      if time < now {
        rollover := true;
      } else {
        rollover := false;
      }
      ghost var exact := n <= U32 - 2 || now == U32 - 1;
      log := Log(FireAt(time, rollover, T), FireAt(time, rollover, T), [], [], exact, !exact);
    }

    /**
     One tick's work on this alarm, now being the counter after T + 1 ticks: clear the roll-over flag
     at a wrap, run the callback when due (its result is whatever the environment returns), rearm.
     */
    method Service(now: u32, ghost T: nat) returns (stop: bool)
      requires Armed(time, rollover, log, T) && now == Shown(T + 1)
      modifies `time, `rollover, `log
      ensures Outcome(old(log), log, T + 1, stop)
      ensures !stop ==> Armed(time, rollover, log, T + 1)
    {
      stop := false;
      TickMeetsPrediction(time, rollover, T);
      if rollover && now == 0 {
        rollover := false;
      }
      if time <= now && !rollover {
        hide FireAt, Elapsed, NextDue, StaysBehind;
        var nextCallback: u32 :| true;
        if log.exact {
          ScheduleContinues(log, T + 1, nextCallback);
        }
        log := Continue(log, T + 1, nextCallback);
        if nextCallback == 0 {
          stop := true;
        } else {
          Rearm(time, old(rollover), old(log), T, nextCallback);
          time := Wrap32(time + nextCallback);
          if time < now {
            rollover := true;
          }
        }
      }
    }
  }

  ghost function Continue(log: Log, now: nat, period: nat): Log {
    log.(due := if period == 0 then now else NextDue(log.behind, now, period),
         behind := StaysBehind(log.behind, now, period), fired := log.fired + [now], periods := log.periods + [period])
  }

  /** Adding the period to the stored time of an alarm that is due gives the time of its next firing. */
  lemma Rearm(time: u32, rollover: bool, log: Log, T: nat, k: u32)
    requires Armed(time, rollover, log, T) && log.due == T + 1 && k > 0
    ensures var t := Wrap32(time + k);
            var due := NextDue(log.behind, T + 1, k);
            && due == FireAt(t, t < Shown(T + 1), T + 1) > 0
            && (due - if StaysBehind(log.behind, T + 1, k) then 1 else 0) % U32 == t
  {
    if log.behind {
      BehindIsNext(time, rollover, T);
      BehindRearm(k, T + 1);
    } else {
      RearmIsExact(k, T + 1);
    }
    hide FireAt, Armed;
  }

  lemma ScheduleContinues(log: Log, now: nat, period: nat)
    requires log.OnSchedule() && !log.behind && log.due == now
    ensures Continue(log, now, period).OnSchedule()
  {
    forall j | 0 <= j <= |log.periods|
      ensures Elapsed(log.periods + [period], j) == Elapsed(log.periods, j)
    {
      ElapsedPrefix(log.periods, period, j);
    }
  }

  // ----- The linked list -----

  ghost predicate Distinct(ns: seq<Alarm>) {
    forall i, j :: 0 <= i < j < |ns| ==> ns[i] != ns[j]
  }

  lemma DifferentAt(ns: seq<Alarm>, i: nat, j: nat)
    requires Distinct(ns) && i < |ns| && j < |ns| && i != j
    ensures ns[i] != ns[j]
  {
  }

  /** ns is the list in order, closed into a ring. */
  ghost predicate Linked(ns: seq<Alarm>)
    reads ns`next, ns`previous
  {
    && |ns| > 0 && Distinct(ns)
    && (forall i {:trigger ns[i].next} :: 0 <= i < |ns| - 1 ==> ns[i].next == ns[i + 1])
    && (forall i {:trigger ns[i].previous} :: 0 < i < |ns| ==> ns[i].previous == ns[i - 1])
    && ns[|ns| - 1].next == ns[0] && ns[0].previous == ns[|ns| - 1]
  }

  method Insert(list: Alarm, entry: Alarm, ghost ns: seq<Alarm>)
    requires Linked(ns) && list == ns[0] && entry !in ns
    modifies list`next, list.next`previous, entry`next, entry`previous
    ensures Linked([list, entry] + ns[1..])
  {
    ghost var q := if |ns| > 1 then ns[1] else ns[0];
    assert list.next == q;
    entry.previous := list;
    entry.next := list.next;
    list.next.previous := entry;
    list.next := entry;
    ghost var ms := [list, entry] + ns[1..];
    assert forall i :: 2 <= i < |ms| ==> ms[i] == ns[i - 1];
    forall i | 0 <= i < |ms| - 1
      ensures ms[i].next == ms[i + 1]
    {
      if i >= 2 {
        assert ns[i - 1].next == ns[(i - 1) + 1];
      }
    }
    forall i | 0 < i < |ms|
      ensures ms[i].previous == ms[i - 1]
    {
      if i >= 3 {
        assert ns[i - 1] != ns[1] && ns[i - 1].previous == ns[(i - 1) - 1];
      }
    }
  }

  /** The entry belongs to no list but itself. */
  ghost predicate Loose(entry: Alarm)
    reads entry
  {
    entry.next == entry && entry.previous == entry
  }

  /** Take entry i out of the list ns; removing a loose entry once more (i == 0) leaves the list alone. */
  method Remove(entry: Alarm, ghost ns: seq<Alarm>, ghost i: nat)
    requires Linked(ns) && if i == 0 then Loose(entry) && entry !in ns else i < |ns| && entry == ns[i]
    modifies entry.previous`next, entry.next`previous, entry`next, entry`previous
    ensures Linked(if i == 0 then ns else ns[..i] + ns[i + 1..]) && Loose(entry)
  {
    if i > 0 {
      assert entry.previous == ns[i - 1] && entry.next == if i + 1 < |ns| then ns[i + 1] else ns[0];
    }
    entry.next.previous := entry.previous;
    entry.previous.next := entry.next;
    entry.previous := entry;
    entry.next := entry;
    if i > 0 {
      ghost var ms := ns[..i] + ns[i + 1..];
      assert forall j :: 0 <= j < i ==> ms[j] == ns[j];
      assert forall j :: i <= j < |ms| ==> ms[j] == ns[j + 1];
      forall j | 0 <= j < |ms| - 1
        ensures ms[j].next == ms[j + 1]
      {
        if j >= i {
          assert ns[j + 1].next == ns[(j + 1) + 1];
        } else if j < i - 1 {
          assert ns[j].next == ns[j + 1];
        }
      }
      forall j | 0 < j < |ms|
        ensures ms[j].previous == ms[j - 1]
      {
        if j > i {
          assert ns[j + 1].previous == ns[(j + 1) - 1];
        } else if j < i {
          assert ns[j].previous == ns[j - 1];
        }
      }
    }
  }

  /** The elements of ns whose flag in stops is clear, in order. */
  ghost function Survivors(ns: seq<Alarm>, stops: seq<bool>): (kept: seq<Alarm>)
    requires |stops| <= |ns|
    ensures |kept| <= |stops|
  {
    if stops == [] then []
    else
      var n := |stops| - 1;
      Survivors(ns, stops[..n]) + if stops[n] then [] else [ns[n]]
  }

  lemma SurvivorsNext(ns: seq<Alarm>, stops: seq<bool>, stop: bool)
    requires |stops| < |ns|
    ensures Survivors(ns, stops + [stop]) == Survivors(ns, stops) + if stop then [] else [ns[|stops|]]
    ensures stops == [] ==> Survivors(ns, stops) == []
  {
    assert (stops + [stop])[..|stops|] == stops;
  }

  /** Where in the list survivor k comes from. */
  lemma {:induction false} SurvivorAt(ns: seq<Alarm>, stops: seq<bool>, k: nat) returns (i: nat)
    requires |stops| <= |ns| && k < |Survivors(ns, stops)|
    ensures k <= i < |stops| && !stops[i] && Survivors(ns, stops)[k] == ns[i]
    decreases |stops|
  {
    var n := |stops| - 1;
    if k < |Survivors(ns, stops[..n])| {
      i := SurvivorAt(ns, stops[..n], k);
    } else {
      i := n;
    }
  }

  /** now is the list in the middle of a walk over ns that has passed the first |stops| elements. */
  ghost predicate Walking(now: seq<Alarm>, ns: seq<Alarm>, stops: seq<bool>)
    requires |stops| <= |ns|
  {
    && now == Survivors(ns, stops) + ns[|stops|..]
    && |Survivors(ns, stops)| > 0 && Survivors(ns, stops)[0] == ns[0]
  }

  lemma SurvivorsFirst(ns: seq<Alarm>)
    requires |ns| > 0
    ensures Survivors(ns, [false]) == [ns[0]]
  {
    assert Survivors(ns, []) == [];
  }

  lemma WalkStarts(ns: seq<Alarm>)
    requires |ns| > 0
    ensures Walking(ns, ns, [false]) && Survivors(ns, [false]) == [ns[0]]
  {
    hide Survivors;
    SurvivorsFirst(ns);
    assert ns == [ns[0]] + ns[1..];
  }

  lemma WalkIsAt(now: seq<Alarm>, ns: seq<Alarm>, stops: seq<bool>)
    requires |stops| < |ns| && Walking(now, ns, stops)
    ensures var i, n := |Survivors(ns, stops)|, |stops|;
            && 0 < i < |now| && now[i] == ns[n]
            && now[if i + 1 < |now| then i + 1 else 0] == if n + 1 < |ns| then ns[n + 1] else ns[0]
  {
  }

  lemma WalkGoesOn(now: seq<Alarm>, ns: seq<Alarm>, stops: seq<bool>, stop: bool)
    requires |stops| < |ns| && Walking(now, ns, stops)
    ensures var i := |Survivors(ns, stops)|;
            i < |now| && Walking(if stop then now[..i] + now[i + 1..] else now, ns, stops + [stop])
  {
    hide Survivors;
    SurvivorsNext(ns, stops, stop);
    DropOrKeep(Survivors(ns, stops), ns, |stops|);
    if stop {
      assert Survivors(ns, stops + [stop]) == Survivors(ns, stops);
    } else {
      assert Survivors(ns, stops + [stop])[0] == ns[0];
    }
  }

  lemma DropOrKeep(kept: seq<Alarm>, ns: seq<Alarm>, n: nat)
    requires n < |ns|
    ensures (kept + ns[n..])[..|kept|] + (kept + ns[n..])[|kept| + 1..] == kept + ns[n + 1..]
    ensures kept + ns[n..] == (kept + [ns[n]]) + ns[n + 1..]
  {
  }

  lemma WalkEnds(now: seq<Alarm>, ns: seq<Alarm>, stops: seq<bool>)
    requires |stops| == |ns| && Walking(now, ns, stops)
    ensures now == Survivors(ns, stops) && |now| > 0 && now[0] == ns[0]
  {
  }
}
