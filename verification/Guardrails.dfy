/**
 The limiter of concurrent responses.  Requests arrive, responses emit `finish` and `close` in
 any order and any number of times, and snapshots are taken in between.
 */
module Guardrails {

  type ResponseId = nat

  datatype Event = Finish | Close
  datatype Op = Arrive(id: ResponseId) | Emit(id: ResponseId, event: Event) | Snapshot

  /** `listeners` holds the events on which a response would still be released. */
  datatype State = State(active: int, peak: int, completed: nat, rejected: nat,
                         listeners: map<ResponseId, set<Event>>)

  datatype Report = Report(activeResponses: int, peakResponses: int, completedResponses: nat, rejectedRequests: nat)

  const Idle := State(0, 0, 0, 0, map[])

  function Max(a: int, b: int): int {
    if a < b then b else a
  }

  predicate Admits(s: State, max: int) {
    s.active < max
  }

  function Next(s: State, max: int, op: Op): State {
    match op
    case Arrive(id) =>
      if Admits(s, max)
      then State(s.active + 1, Max(s.peak, s.active + 1), s.completed, s.rejected, s.listeners[id := {Finish, Close}])
      else s.(rejected := s.rejected + 1)
    case Emit(id, event) =>
      if id in s.listeners && event in s.listeners[id]
      then s.(active := s.active - 1, completed := s.completed + 1, listeners := s.listeners[id := {}])
      else s
    case Snapshot => s.(peak := s.active, completed := 0, rejected := 0)
  }

  function ReportOf(s: State): Report {
    Report(s.active, s.peak, s.completed, s.rejected)
  }

  function Run(ops: seq<Op>, max: int): State {
    if ops == [] then Idle else Next(Run(ops[..|ops| - 1], max), max, ops[|ops| - 1])
  }

  // ----- What happened, told without counters -----

  /** Every request has its own response. */
  ghost predicate DistinctResponses(ops: seq<Op>) {
    forall i, j | 0 <= i < j < |ops| && ops[i].Arrive? && ops[j].Arrive? :: ops[i].id != ops[j].id
  }

  function Arrived(ops: seq<Op>): set<ResponseId> {
    set i | 0 <= i < |ops| && ops[i].Arrive? :: ops[i].id
  }

  function Accepted(ops: seq<Op>, max: int): set<ResponseId> {
    set i | 0 <= i < |ops| && ops[i].Arrive? && Admits(Run(ops[..i], max), max) :: ops[i].id
  }

  /** The accepted responses that have emitted anything since. */
  function Ended(ops: seq<Op>, max: int): set<ResponseId> {
    set i | 0 <= i < |ops| && ops[i].Emit? && ops[i].id in Accepted(ops[..i], max) :: ops[i].id
  }

  function InFlight(ops: seq<Op>, max: int): set<ResponseId> {
    Accepted(ops, max) - Ended(ops, max)
  }

  /** Totals over all the reports that snapshots have returned. */
  function ReportedCompletions(ops: seq<Op>, max: int): nat {
    if ops == [] then 0
    else
      var before := ops[..|ops| - 1];
      ReportedCompletions(before, max)
      + if ops[|ops| - 1].Snapshot? then ReportOf(Run(before, max)).completedResponses else 0
  }

  function ReportedRejections(ops: seq<Op>, max: int): nat {
    if ops == [] then 0
    else
      var before := ops[..|ops| - 1];
      ReportedRejections(before, max)
      + if ops[|ops| - 1].Snapshot? then ReportOf(Run(before, max)).rejectedRequests else 0
  }

  /** The number of operations up to and including the last snapshot. */
  function LastSnapshot(ops: seq<Op>): (n: nat)
    ensures n <= |ops|
  {
    if ops == [] then 0
    else if ops[|ops| - 1].Snapshot? then |ops|
    else LastSnapshot(ops[..|ops| - 1])
  }

  // ----- One more operation -----

  lemma OneMore(before: seq<Op>, op: Op, max: int)
    ensures var ops := before + [op];
            && Run(ops, max) == Next(Run(before, max), max, op)
            && Arrived(ops) == Arrived(before) + (if op.Arrive? then {op.id} else {})
            && Accepted(ops, max) == Accepted(before, max)
                                     + (if op.Arrive? && Admits(Run(before, max), max) then {op.id} else {})
            && Ended(ops, max) == Ended(before, max)
                                  + (if op.Emit? && op.id in Accepted(before, max) then {op.id} else {})
            && ReportedCompletions(ops, max) == ReportedCompletions(before, max)
                                                + (if op.Snapshot? then Run(before, max).completed else 0)
            && ReportedRejections(ops, max) == ReportedRejections(before, max)
                                               + (if op.Snapshot? then Run(before, max).rejected else 0)
  {
    var ops := before + [op];
    assert ops[..|before|] == before;
    forall i | 0 <= i < |before| ensures ops[..i] == before[..i] && ops[i] == before[i] {}
    assert op == ops[|before|];
  }

  lemma FreshArrival(before: seq<Op>, op: Op)
    requires DistinctResponses(before + [op])
    ensures DistinctResponses(before) && (op.Arrive? ==> op.id !in Arrived(before))
  {
    var ops := before + [op];
    forall i | 0 <= i < |before| ensures ops[i] == before[i] {}
    assert ops[|before|] == op;
  }

  /** The listeners know exactly which responses are still in flight. */
  ghost predicate Watches(listeners: map<ResponseId, set<Event>>, inFlight: set<ResponseId>) {
    && (forall id | id in inFlight :: id in listeners && listeners[id] == {Finish, Close})
    && (forall id | id in listeners && id !in inFlight :: listeners[id] == {})
  }

  lemma Watch(listeners: map<ResponseId, set<Event>>, inFlight: set<ResponseId>, id: ResponseId)
    requires Watches(listeners, inFlight)
    ensures Watches(listeners[id := {Finish, Close}], inFlight + {id})
  {}

  /** Taking a watched response out of the listeners takes it out of flight. */
  lemma Unwatch(listeners: map<ResponseId, set<Event>>, inFlight: set<ResponseId>, id: ResponseId)
    requires Watches(listeners, inFlight)
    ensures id in inFlight ==> Watches(listeners[id := {}], inFlight - {id})
    ensures forall event :: id in inFlight <==> id in listeners && event in listeners[id]
  {
    forall event ensures id in inFlight <==> id in listeners && event in listeners[id] {
      assert event.Finish? || event.Close?;
      if id in listeners {
        assert listeners[id] == if id in inFlight then {Finish, Close} else {};
      }
    }
  }

  ghost predicate Accounted(s: State, max: int, arrived: set<ResponseId>, accepted: set<ResponseId>,
                            ended: set<ResponseId>, completions: nat, rejections: nat) {
    && ended <= accepted <= arrived
    && s.active == |accepted - ended| && 0 <= s.active <= Max(0, max)
    && s.completed + completions == |ended|
    && s.rejected + rejections == |arrived| - |accepted|
    && Watches(s.listeners, accepted - ended)
  }

  lemma ArrivalAccounted(s: State, max: int, arrived: set<ResponseId>, accepted: set<ResponseId>,
                         ended: set<ResponseId>, completions: nat, rejections: nat, id: ResponseId)
    requires Accounted(s, max, arrived, accepted, ended, completions, rejections) && id !in arrived
    ensures Accounted(Next(s, max, Arrive(id)), max, arrived + {id},
                      accepted + (if Admits(s, max) then {id} else {}), ended, completions, rejections)
  {
    if Admits(s, max) {
      assert accepted + {id} - ended == accepted - ended + {id};
      Watch(s.listeners, accepted - ended, id);
    } else {
      assert accepted + {} == accepted;
    }
  }

  lemma EmitAccounted(s: State, max: int, arrived: set<ResponseId>, accepted: set<ResponseId>,
                      ended: set<ResponseId>, completions: nat, rejections: nat,
                      id: ResponseId, event: Event)
    requires Accounted(s, max, arrived, accepted, ended, completions, rejections)
    ensures Accounted(Next(s, max, Emit(id, event)), max, arrived, accepted,
                      ended + (if id in accepted then {id} else {}), completions, rejections)
  {
    Unwatch(s.listeners, accepted - ended, id);
    if id in accepted - ended {
      assert accepted - (ended + {id}) == accepted - ended - {id};
    } else {
      assert ended + (if id in accepted then {id} else {}) == ended;
    }
  }

  lemma StepAccounted(s: State, max: int, arrived: set<ResponseId>, accepted: set<ResponseId>,
                      ended: set<ResponseId>, completions: nat, rejections: nat, op: Op)
    requires Accounted(s, max, arrived, accepted, ended, completions, rejections)
    requires op.Arrive? ==> op.id !in arrived
    ensures Accounted(Next(s, max, op), max,
                      arrived + (if op.Arrive? then {op.id} else {}),
                      accepted + (if op.Arrive? && Admits(s, max) then {op.id} else {}),
                      ended + (if op.Emit? && op.id in accepted then {op.id} else {}),
                      completions + (if op.Snapshot? then s.completed else 0),
                      rejections + (if op.Snapshot? then s.rejected else 0))
  {
    assert arrived + {} == arrived && accepted + {} == accepted && ended + {} == ended;
    match op
    case Arrive(id) => ArrivalAccounted(s, max, arrived, accepted, ended, completions, rejections, id);
    case Emit(id, event) => EmitAccounted(s, max, arrived, accepted, ended, completions, rejections, id, event);
    case Snapshot =>
  }

  /**
   The in-flight count is the number of accepted responses that have not ended, and every
   completion and rejection is in exactly one report or still to be reported.
   */
  lemma {:induction false} NothingIsLost(ops: seq<Op>, max: int)
    requires DistinctResponses(ops)
    ensures Accounted(Run(ops, max), max, Arrived(ops), Accepted(ops, max), Ended(ops, max),
                      ReportedCompletions(ops, max), ReportedRejections(ops, max))
    decreases |ops|
  {
    if ops != [] {
      var before, op := ops[..|ops| - 1], ops[|ops| - 1];
      assert ops == before + [op];
      OneMore(before, op, max);
      FreshArrival(before, op);
      NothingIsLost(before, max);
      StepAccounted(Run(before, max), max, Arrived(before), Accepted(before, max), Ended(before, max),
                    ReportedCompletions(before, max), ReportedRejections(before, max), op);
    }
  }

  /** A request is turned away exactly when as many responses as allowed are still in flight. */
  lemma RejectedIff(ops: seq<Op>, id: ResponseId, max: int)
    requires DistinctResponses(ops + [Arrive(id)])
    ensures id in Accepted(ops + [Arrive(id)], max) <==> |InFlight(ops, max)| < max
  {
    FreshArrival(ops, Arrive(id));
    NothingIsLost(ops, max);
    OneMore(ops, Arrive(id), max);
  }

  function ActiveAfter(ops: seq<Op>, k: nat, max: int): int
    requires k <= |ops|
  {
    Run(ops[..k], max).active
  }

  /** The peak is the highest in-flight count there was since the last snapshot. */
  lemma {:induction false} PeakIsHighest(ops: seq<Op>, max: int)
    ensures forall k | LastSnapshot(ops) <= k <= |ops| :: ActiveAfter(ops, k, max) <= Run(ops, max).peak
    ensures exists k :: LastSnapshot(ops) <= k <= |ops| && ActiveAfter(ops, k, max) == Run(ops, max).peak
    decreases |ops|
  {
    var n := |ops|;
    assert ops[..n] == ops;
    assert ActiveAfter(ops, n, max) == Run(ops, max).active;
    if ops != [] && !ops[n - 1].Snapshot? {
      var before := ops[..n - 1];
      PeakIsHighest(before, max);
      forall k | 0 <= k < n ensures ActiveAfter(ops, k, max) == ActiveAfter(before, k, max) {
        assert before[..k] == ops[..k];
      }
      assert before[..n - 1] == before && ActiveAfter(before, n - 1, max) == Run(before, max).active;
      forall k | LastSnapshot(ops) <= k <= n ensures ActiveAfter(ops, k, max) <= Run(ops, max).peak {
        if k < n {
          assert ActiveAfter(before, k, max) <= Run(before, max).peak;
        }
      }
      var k :| LastSnapshot(before) <= k < n && ActiveAfter(before, k, max) == Run(before, max).peak;
      var highest := if Run(ops, max).peak == Run(before, max).peak then k else n;
      assert ActiveAfter(ops, highest, max) == Run(ops, max).peak;
    } else {
      assert LastSnapshot(ops) == n && Run(ops, max).peak == Run(ops, max).active;
    }
  }

  // ----- The limiter -----

  class RuntimeGuardrails {
    const maxInFlight: int
    var active: int
    var peak: int
    var completed: nat
    var rejected: nat
    var listeners: map<ResponseId, set<Event>>

    constructor (maxInFlight: int)
      ensures this.maxInFlight == maxInFlight && Now() == Idle
    {
      this.maxInFlight := maxInFlight;
      active, peak, completed, rejected, listeners := 0, 0, 0, 0, map[];
    }

    function Now(): State
      reads this
    {
      State(active, peak, completed, rejected, listeners)
    }

    method Middleware(id: ResponseId) returns (admitted: bool)
      modifies this
      ensures admitted == Admits(old(Now()), maxInFlight)
      ensures Now() == Next(old(Now()), maxInFlight, Arrive(id))
    {
      if active >= maxInFlight {
        rejected := rejected + 1;
        return false;
      }
      active := active + 1;
      peak := Max(peak, active);
      listeners := listeners[id := {Finish}];
      listeners := listeners[id := listeners[id] + {Close}];
      assert listeners[id] == {Finish, Close};
      return true;
    }

    /** The listener that both events share. */
    method Release(id: ResponseId)
      requires id in listeners
      modifies this
      ensures Now() == old(Now()).(active := old(active) - 1, completed := old(completed) + 1,
                                   listeners := old(listeners)[id := {}])
    {
      listeners := listeners[id := listeners[id] - {Finish}];
      listeners := listeners[id := listeners[id] - {Close}];
      active := active - 1;
      completed := completed + 1;
      assert listeners[id] == {} by {
        forall e: Event ensures e !in listeners[id] { assert e == Finish || e == Close; }
      }
    }

    /** A response emits an event; its listener for that event runs once. */
    method EmitEvent(id: ResponseId, event: Event)
      modifies this
      ensures Now() == Next(old(Now()), maxInFlight, Emit(id, event))
    {
      if id in listeners && event in listeners[id] {
        listeners := listeners[id := listeners[id] - {event}];
        Release(id);
      }
    }

    method TakeSnapshot() returns (report: Report)
      modifies this
      ensures report == ReportOf(old(Now()))
      ensures report.activeResponses == old(active) && report.peakResponses == old(peak)
      ensures report.completedResponses == old(completed) && report.rejectedRequests == old(rejected)
      ensures Now() == Next(old(Now()), maxInFlight, Snapshot)
    {
      report := Report(active, peak, completed, rejected);
      peak, completed, rejected := active, 0, 0;
    }
  }
}
