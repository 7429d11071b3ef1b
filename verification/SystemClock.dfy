/** The tick handler and alarm registration over the linked alarm list. */
module SystemClock {
  import opened Bits
  import opened AlarmClock
  import opened AlarmList

  ghost predicate Within(ns: seq<Alarm>, all: set<Alarm>) {
    forall k :: 0 <= k < |ns| ==> ns[k] in all
  }

  lemma WithinAt(ns: seq<Alarm>, all: set<Alarm>, i: nat)
    requires Within(ns, all) && i < |ns|
    ensures ns[i] in all
  {
  }

  lemma HeadAlone(ns: seq<Alarm>)
    requires Linked(ns)
    ensures |ns| > 0 && Distinct(ns) && ns[0].next == (if |ns| > 1 then ns[1] else ns[0])
    ensures forall j :: 0 < j < |ns| ==> ns[j] != ns[0]
  {
  }

  datatype State = State(time: u32, rollover: bool, log: Log)
  {
    ghost predicate At(T: nat) {
      Armed(time, rollover, log, T)
    }
  }

  ghost function States(ns: seq<Alarm>): (s: seq<State>)
    reads ns
    ensures |s| == |ns| && forall i :: 0 <= i < |ns| ==> s[i] == State(ns[i].time, ns[i].rollover, ns[i].log)
  {
    seq(|ns|, i requires 0 <= i < |ns| reads ns => State(ns[i].time, ns[i].rollover, ns[i].log))
  }

  /**
   Of the elements in these states, which had the given logs, the first |stops| have had their visit at tick
   was + 1.
   */
  ghost predicate Served(states: seq<State>, logs: seq<Log>, stops: seq<bool>, was: nat)
    requires |stops| <= |states| == |logs|
  {
    && (forall i :: 0 < i < |stops| ==> Outcome(logs[i], states[i].log, was + 1, stops[i]))
    && (forall i :: 0 < i < |stops| && !stops[i] ==> states[i].At(was + 1))
    && (forall i :: |stops| <= i < |states| ==> states[i].At(was) && states[i].log == logs[i])
  }

  lemma ServedStarts(ns: seq<Alarm>, logs: seq<Log>, was: nat)
    requires |ns| == |logs| > 0
    requires forall i :: 0 < i < |ns| ==> Armed(ns[i].time, ns[i].rollover, ns[i].log, was) && ns[i].log == logs[i]
    ensures Served(States(ns), logs, [false], was)
  {
    hide Armed, Outcome;
  }

  lemma ServedAt(states: seq<State>, logs: seq<Log>, stops: seq<bool>, was: nat)
    requires |stops| < |states| == |logs| && Served(states, logs, stops, was)
    ensures states[|stops|].At(was) && states[|stops|].log == logs[|stops|]
  {
  }

  /** One more element has had its visit, and no other element changed. */
  lemma ServedNext(before: seq<State>, states: seq<State>, logs: seq<Log>, stops: seq<bool>, stop: bool, was: nat)
    requires |stops| < |states| == |before| == |logs| && Served(before, logs, stops, was)
    requires forall i :: 0 <= i < |states| && i != |stops| ==> states[i] == before[i]
    requires var s := states[|stops|]; Outcome(logs[|stops|], s.log, was + 1, stop) && (!stop ==> s.At(was + 1))
    ensures Served(states, logs, stops + [stop], was)
  {
    hide Armed, Outcome;
  }

  lemma ServedAll(ns: seq<Alarm>, logs: seq<Log>, stops: seq<bool>, was: nat)
    requires |stops| == |ns| == |logs| && Served(States(ns), logs, stops, was)
    ensures forall i :: 0 < i < |stops| ==> Outcome(logs[i], ns[i].log, was + 1, stops[i])
    ensures forall k :: 0 < k < |Survivors(ns, stops)| ==>
              var a := Survivors(ns, stops)[k]; Armed(a.time, a.rollover, a.log, was + 1)
  {
    hide Armed, Outcome;
    var states := States(ns);
    assert forall i :: 0 < i < |stops| ==> Outcome(logs[i], states[i].log, was + 1, stops[i]);
    forall k | 0 < k < |Survivors(ns, stops)|
      ensures var a := Survivors(ns, stops)[k]; Armed(a.time, a.rollover, a.log, was + 1)
    {
      var i := SurvivorAt(ns, stops, k);
      assert states[i].At(was + 1);
    }
  }

  /** The elements that have left the list are loose and not in it. */
  ghost predicate Gone(ns: seq<Alarm>, stops: seq<bool>, nodes: seq<Alarm>)
    requires |stops| <= |ns|
    reads ns
  {
    forall i :: 0 <= i < |stops| && stops[i] ==> Loose(ns[i]) && ns[i] !in nodes
  }

  lemma NoneGone(ns: seq<Alarm>, nodes: seq<Alarm>)
    requires |ns| > 0
    ensures Gone(ns, [false], nodes)
  {
  }

  lemma NotInRest(ns: seq<Alarm>, i: nat)
    requires Distinct(ns) && i < |ns|
    ensures ns[i] !in ns[..i] + ns[i + 1..]
  {
  }

  class Clock {
    var tickRate: nat
    var nticks: u32
    const list: Alarm
    ghost var T: nat
    ghost var nodes: seq<Alarm>

    ghost predicate Valid()
      reads this, nodes
    {
      && Linked(nodes) && nodes[0] == list
      && nticks == Shown(T)
      && forall i :: 0 < i < |nodes| ==> Armed(nodes[i].time, nodes[i].rollover, nodes[i].log, T)
    }

    constructor (rate: nat)
      ensures Valid() && nodes == [list] && T == 0 && tickRate == rate && fresh(list)
    {
      var head := new Alarm();
      list := head;
      tickRate := rate;
      nticks := 0;
      T := 0;
      nodes := [head];
    }

    /**
     Register an alarm for n + 1 ticks from now; it becomes the first of the list. The longest delay is mistaken
     for none, unless the counter is about to wrap; the other alarms are not touched in any case.
     */
    method Start(alarm: Alarm?, n: u32) returns (r: int)
      requires Valid() && alarm !in nodes
      modifies `nodes, nodes, alarm
      ensures Valid() && T == old(T)
      ensures tickRate == 0 ==> r == -ENOTSUP && nodes == old(nodes)
      ensures tickRate != 0 && alarm == null ==> r == -EINVAL && nodes == old(nodes)
      ensures tickRate != 0 && alarm != null ==>
                && r == 0 && nodes == [list, alarm] + old(nodes)[1..] && States(old(nodes)) == old(States(nodes))
                && alarm.log.fired == [] && alarm.log.behind == !alarm.log.exact
                && (alarm.log.exact <==> n <= U32 - 2 || Shown(T) == U32 - 1)
                && alarm.log.due == alarm.log.first == if alarm.log.exact then T + n + 1 else T + 1
    {
      if tickRate == 0 {
        return -ENOTSUP;
      }
      if alarm == null {
        return -EINVAL;
      }
      hide Armed, Linked, Shown;
      ghost var pre, states := nodes, States(nodes);
      Register(alarm, n);
      AllArmed(pre, states, alarm, T);
      r := 0;
    }

    /** Arm the alarm and put it behind the head of the list; the other alarms are not touched. */
    method Register(alarm: Alarm, n: u32)
      requires Linked(nodes) && nodes[0] == list && nticks == Shown(T) && alarm !in nodes
      modifies `nodes, nodes`next, nodes`previous, alarm
      ensures nodes == [list, alarm] + old(nodes)[1..] && Linked(nodes) && States(old(nodes)) == old(States(nodes))
      ensures alarm.log.fired == [] && alarm.log.first == alarm.log.due
      ensures alarm.log.exact <==> n <= U32 - 2 || Shown(T) == U32 - 1
      ensures alarm.log.due == (if alarm.log.exact then T + n + 1 else T + 1) && alarm.log.behind == !alarm.log.exact
      ensures Armed(alarm.time, alarm.rollover, alarm.log, T)
    {
      hide Armed, Linked, Shown;
      ghost var pre := nodes;
      HeadAlone(pre);
      alarm.Arm(n, nticks, T);
      Insert(list, alarm, pre);
      nodes := [list, alarm] + pre[1..];
    }

    /** The alarms of the list ns are still armed when another one has been put behind its head. */
    lemma AllArmed(ns: seq<Alarm>, states: seq<State>, alarm: Alarm, T: nat)
      requires |ns| > 0 && States(ns) == states && forall i :: 0 < i < |ns| ==> states[i].At(T)
      ensures var ms := [ns[0], alarm] + ns[1..];
              forall i :: 2 <= i < |ms| ==> Armed(ms[i].time, ms[i].rollover, ms[i].log, T)
    {
      hide Armed;
      var ms := [ns[0], alarm] + ns[1..];
      forall i | 2 <= i < |ms|
        ensures Armed(ms[i].time, ms[i].rollover, ms[i].log, T)
      {
        assert ms[i] == ns[i - 1] && states[i - 1].At(T);
      }
    }

    /** Unregister alarm i of the list; stopping a loose alarm (i == 0) once more leaves the list alone. */
    method Stop(alarm: Alarm, ghost i: nat)
      requires Valid() && if i == 0 then Loose(alarm) && alarm !in nodes else i < |nodes| && nodes[i] == alarm
      modifies `nodes, nodes, alarm`next, alarm`previous
      ensures Valid() && T == old(T) && nodes == if i == 0 then old(nodes) else old(nodes)[..i] + old(nodes)[i + 1..]
      ensures Loose(alarm) && alarm !in nodes && alarm.log == old(alarm.log)
    {
      hide Armed;
      ghost var pre := nodes;
      assert i > 0 ==> alarm.previous == pre[i - 1] && alarm.next == pre[if i + 1 < |pre| then i + 1 else 0];
      Remove(alarm, pre, i);
      if i > 0 {
        nodes := pre[..i] + pre[i + 1..];
        assert forall j :: 0 <= j < i ==> nodes[j] == pre[j];
        assert forall j :: i <= j < |nodes| ==> nodes[j] == pre[j + 1];
      }
    }

    /** One step of the walk; the successor is fetched before the alarm can leave the list. */
    method Visit(alarm: Alarm, ghost i: nat, ghost was: nat, ghost all: set<Alarm>)
      returns (next: Alarm, ghost stop: bool)
      requires Linked(nodes) && Within(nodes, all) && 0 < i < |nodes| && nodes[i] == alarm
      requires Armed(alarm.time, alarm.rollover, alarm.log, was) && nticks == Shown(was + 1)
      modifies `nodes, alarm`time, alarm`rollover, alarm`log, all`next, all`previous
      ensures next == old(nodes)[if i + 1 < |old(nodes)| then i + 1 else 0]
      ensures Outcome(old(alarm.log), alarm.log, was + 1, stop)
      ensures nodes == if stop then old(nodes)[..i] + old(nodes)[i + 1..] else old(nodes)
      ensures Linked(nodes) && Within(nodes, all)
      ensures !stop ==> Armed(alarm.time, alarm.rollover, alarm.log, was + 1)
      ensures stop ==> Loose(alarm) && alarm !in nodes
      ensures forall a {:trigger Loose(a)} :: a in all && a !in old(nodes) && old(Loose(a)) ==> Loose(a)
    {
      hide Armed, Outcome;
      next := alarm.next;
      var stopped := alarm.Service(nticks, was);
      stop := stopped;
      if stopped {
        assert alarm.previous == nodes[i - 1] && alarm.next == nodes[if i + 1 < |nodes| then i + 1 else 0];
        Remove(alarm, nodes, i);
        NotInRest(nodes, i);
        nodes := nodes[..i] + nodes[i + 1..];
      }
    }

    ghost function Logs(): (s: seq<Log>)
      reads this, nodes
      ensures |s| == |nodes| && forall i :: 0 <= i < |nodes| ==> s[i] == nodes[i].log
    {
      seq(|nodes|, i requires 0 <= i < |nodes| reads this, nodes => nodes[i].log)
    }

    /** The walk reaches the next element of pre: it is visited, and nothing else of pre is touched. */
    method Advance(alarm: Alarm, ghost pre: seq<Alarm>, ghost logs: seq<Log>, ghost stops: seq<bool>,
                   ghost all: set<Alarm>, ghost was: nat)
      returns (next: Alarm, ghost after: seq<bool>)
      requires 0 < |stops| < |pre| == |logs| && alarm == pre[|stops|] && Distinct(pre) && Within(pre, all)
      requires Walking(nodes, pre, stops) && Linked(nodes) && Within(nodes, all)
      requires Served(States(pre), logs, stops, was) && nticks == Shown(was + 1)
      modifies `nodes, alarm`time, alarm`rollover, alarm`log, all`next, all`previous
      ensures |after| == |stops| + 1 && after[0] == stops[0]
      ensures next == if |after| < |pre| then pre[|after|] else pre[0]
      ensures Walking(nodes, pre, after) && Linked(nodes) && Within(nodes, all)
      ensures Served(States(pre), logs, after, was)
      ensures old(Gone(pre, stops, nodes)) ==> Gone(pre, after, nodes)
    {
      hide Armed, Survivors, Linked, Outcome, Within, Walking, Served;
      ghost var n, now := |stops|, nodes;
      WalkIsAt(now, pre, stops);
      ghost var states := States(pre);
      ServedAt(states, logs, stops, was);
      ghost var stop;
      next, stop := Visit(alarm, |Survivors(pre, stops)|, was, all);
      WalkGoesOn(now, pre, stops, stop);
      forall i | 0 <= i < |pre| && i != n
        ensures States(pre)[i] == states[i]
      {
        DifferentAt(pre, n, i);
      }
      ServedNext(states, States(pre), logs, stops, stop, was);
      after := stops + [stop];
      forall i | 0 <= i < |pre|
        ensures pre[i] in all
      {
        WithinAt(pre, all, i);
      }
    }

    /**
     The walk of the tick handler over the list pre, whose alarms have the given logs: every element is
     visited once, although visits may remove alarms from the list being walked.
     */
    method Walk(ghost pre: seq<Alarm>, ghost logs: seq<Log>, ghost all: set<Alarm>, ghost was: nat)
      returns (ghost stops: seq<bool>)
      requires Linked(pre) && Within(pre, all) && nodes == pre && pre[0] == list && |logs| == |pre|
      requires nticks == Shown(was + 1)
      requires forall i :: 0 < i < |pre| ==>
            Armed(pre[i].time, pre[i].rollover, pre[i].log, was) && pre[i].log == logs[i]
      modifies `nodes, all`next, all`previous, all`time, all`rollover, all`log
      ensures |stops| == |pre| && !stops[0] && nodes == Survivors(pre, stops) && Linked(nodes) && nodes[0] == list
      ensures forall i :: 0 < i < |nodes| ==> Armed(nodes[i].time, nodes[i].rollover, nodes[i].log, was + 1)
      ensures forall i :: 0 < i < |stops| ==> Outcome(logs[i], pre[i].log, was + 1, stops[i])
      ensures Gone(pre, stops, nodes)
    {
      hide Gone;
      hide Armed, Shown, Distinct, Survivors, Linked, Outcome, Within, Walking, Served;
      var alarm := list.next;
      stops := [false];
      HeadAlone(pre);
      WalkStarts(pre);
      ServedStarts(pre, logs, was);
      NoneGone(pre, nodes);
      while alarm != list
        invariant 0 < |stops| <= |pre| && !stops[0] && alarm == if |stops| < |pre| then pre[|stops|] else list
        invariant Walking(nodes, pre, stops) && Linked(nodes)
        invariant Within(nodes, all) && Served(States(pre), logs, stops, was) && Gone(pre, stops, nodes)
        decreases |pre| - |stops|
      {
        WithinAt(pre, all, |stops|);
        alarm, stops := Advance(alarm, pre, logs, stops, all, was);
      }
      WalkEnds(nodes, pre, stops);
      ServedAll(pre, logs, stops, was);
    }

    /**
     One tick: every registered alarm is visited exactly once; those that are due fire, and exactly
     those that return zero leave the list, which keeps its order. What has left can be stopped again.
     */
    method Tick() returns (ghost stops: seq<bool>)
      requires Valid()
      modifies `nticks, `T, `nodes, nodes
      ensures Valid() && T == old(T) + 1
      ensures |stops| == |old(nodes)| && !stops[0] && nodes == Survivors(old(nodes), stops)
      ensures forall i :: 0 < i < |stops| ==> Outcome(old(Logs())[i], old(nodes)[i].log, T, stops[i])
      ensures Gone(old(nodes), stops, nodes)
    {
      hide Armed, Survivors, Linked, Outcome, Gone;
      ghost var was, pre, logs := T, nodes, Logs();
      ghost var all := set a | a in pre;
      NextShown(was);
      nticks := Wrap32(nticks + 1);
      T := T + 1;
      stops := Walk(pre, logs, all, was);
    }
  }
}
