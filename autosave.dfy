/** The autosave debounce of src/services/autosave.js over an explicit
    clock: one timer, shared by `input` and `focusout`, restarted at 2500 ms
    by every event. `onSave`'s own outcome is swallowed, so the scheduler
    only records when it was called. */
module Autosave {
  import opened Wrappers

  const Delay := 2500

  datatype EventKind = Input | FocusOut

  /** The scheduler's state: the deadline of the pending timer, the time
      now, and the instants at which `onSave` was invoked. */
  datatype Clock = Clock(timer: Option<int>, now: int, saves: seq<int>)

  /** Let time pass until `to`: a timer due by then fires (once) and is gone. */
  function Advance(c: Clock, to: int): (r: Clock)
    requires c.now <= to
    ensures r.now == to
    ensures c.timer.Some? && c.timer.value <= to ==> r == Clock(None, to, c.saves + [c.timer.value])
    ensures !(c.timer.Some? && c.timer.value <= to) ==> r == c.(now := to)
  {
    match c.timer
    case Some(d) =>
      if d <= to then Clock(None, to, c.saves + [d]) else Clock(c.timer, to, c.saves)
    case None => Clock(None, to, c.saves)
  }

  /** Letting time pass in two steps is letting it pass at once: the timer
      fires at most once, at its own deadline, whatever the steps. */
  lemma AdvanceInSteps(c: Clock, mid: int, to: int)
    requires c.now <= mid <= to
    ensures Advance(Advance(c, mid), to) == Advance(c, to)
  {
  }

  /** `schedule`: clear the pending timer and start a fresh one. The event's
      kind plays no part: both kinds share the one timer. */
  function OnEvent(c: Clock, kind: EventKind, at: int): (r: Clock)
    requires c.now <= at
    ensures r.timer == Some(at + Delay) && r.now == at
  {
    var c' := Advance(c, at);
    Clock(Some(at + Delay), at, c'.saves)
  }

  /** A burst: events in time order, each less than the delay after the one before. */
  predicate IsBurst(ts: seq<int>) {
    forall k | 0 < k < |ts| :: ts[k - 1] <= ts[k] < ts[k - 1] + Delay
  }

  /** The events at instants `ts`, handled in order. */
  function RunEvents(c: Clock, ts: seq<int>): (r: Clock)
    requires ts == [] || c.now <= ts[0]
    requires forall k | 0 < k < |ts| :: ts[k - 1] <= ts[k]
    ensures r.now == if ts == [] then c.now else ts[|ts| - 1]
    ensures |r.saves| >= |c.saves| && r.saves[..|c.saves|] == c.saves
    decreases |ts|
  {
    if ts == [] then c else RunEvents(OnEvent(c, Input, ts[0]), ts[1..])
  }

  /** During a burst no save happens and afterwards exactly one timer is
      pending, due the delay after the last event. */
  lemma {:induction false} BurstLeavesOneTimer(c: Clock, ts: seq<int>)
    requires ts != [] && c.now <= ts[0] && IsBurst(ts)
    requires c.timer.None? || c.timer.value > ts[0]
    ensures RunEvents(c, ts) == Clock(Some(ts[|ts| - 1] + Delay), ts[|ts| - 1], c.saves)
    decreases |ts|
  {
    var c1 := OnEvent(c, Input, ts[0]);
    assert c1 == Clock(Some(ts[0] + Delay), ts[0], c.saves);
    if |ts| > 1 {
      BurstLeavesOneTimer(c1, ts[1..]);
    }
  }

  /** A burst followed by silence until `t` saves exactly once, at the delay
      after the last event, if `t` reaches that instant, and not at all before. */
  lemma BurstThenSilence(c: Clock, ts: seq<int>, t: int)
    requires ts != [] && c.now <= ts[0] && IsBurst(ts)
    requires c.timer.None? || c.timer.value > ts[0]
    requires t >= ts[|ts| - 1]
    ensures var last := ts[|ts| - 1];
      Advance(RunEvents(c, ts), t).saves
        == if t >= last + Delay then c.saves + [last + Delay] else c.saves
  {
    BurstLeavesOneTimer(c, ts);
  }

  class Autosave {
    var timer: Option<int>
    var now: int
    var saves: seq<int>

    function State(): Clock
      reads this
    {
      Clock(timer, now, saves)
    }

    constructor (start: int)
      ensures State() == Clock(None, start, [])
    {
      timer, now, saves := None, start, [];
    }

    /** The shared handler of `input` and `focusout`. */
    method Schedule(kind: EventKind, at: int)
      requires now <= at
      modifies this
      ensures State() == OnEvent(old(State()), kind, at)
    {
      Tick(at);
      timer := Some(at + Delay);
    }

    /** Time passes: the pending timer fires when its deadline is reached. */
    method Tick(to: int)
      requires now <= to
      modifies this
      ensures State() == Advance(old(State()), to)
    {
      if timer.Some? && timer.value <= to {
        saves := saves + [timer.value];
        timer := None;
      }
      now := to;
    }
  }
}
