/** The event subscription of the transaction pool as a step system: any number of producers
    append to a store and drop a token into a notify channel; one loop takes a token and
    drains the store to the subscriber. Closing is not modelled. */
module EventSubscription {
  type EventType = nat
  datatype Event = Event(eventType: EventType, txHash: nat)

  /** The subscribed types and the capacity of the notify channel; `subscribe` makes it 1. */
  datatype Config = Config(eventTypes: seq<EventType>, capacity: nat)

  method EventSupported(c: Config, t: EventType) returns (supported: bool)
    ensures supported <==> t in c.eventTypes
  {
    for i := 0 to |c.eventTypes|
      invariant t !in c.eventTypes[..i]
    {
      if c.eventTypes[i] == t {
        return true;
      }
    }
    return false;
  }

  /** The loop: at its outer select, about to pop, holding an event for the subscriber, or on
      its way out after finding the store empty. */
  datatype Loop = Idle | Draining | Holding(event: Event) | Leaving

  /** `notifying` producers have pushed and not yet tried to notify. */
  datatype State = State(store: seq<Event>, tokens: nat, loop: Loop, notifying: nat, delivered: seq<Event>)

  datatype Step = Push(event: Event) | Notify | Wake | Pop | Deliver | Leave

  const START := State([], 0, Idle, 0, [])

  predicate Enabled(c: Config, s: State, step: Step)
  {
    match step
    case Push(_) => true
    case Notify => s.notifying > 0
    case Wake => s.loop == Idle && s.tokens > 0
    case Pop => s.loop == Draining
    case Deliver => s.loop.Holding?
    case Leave => s.loop == Leaving
  }

  /** Notifying never blocks: the token goes into the channel, straight to a waiting loop, or
      is dropped. */
  function After(c: Config, s: State, step: Step): State
    requires Enabled(c, s, step)
  {
    match step
    case Push(e) =>
      if e.eventType in c.eventTypes then s.(store := s.store + [e], notifying := s.notifying + 1) else s
    case Notify =>
      var s' := s.(notifying := s.notifying - 1);
      if s.tokens < c.capacity then s'.(tokens := s.tokens + 1)
      else if c.capacity == 0 && s.loop == Idle then s'.(loop := Draining)
      else s'
    case Wake => s.(tokens := s.tokens - 1, loop := Draining)
    case Pop => if s.store == [] then s.(loop := Leaving) else s.(loop := Holding(s.store[0]), store := s.store[1..])
    case Deliver => s.(loop := Draining, delivered := s.delivered + [s.loop.event])
    case Leave => s.(loop := Idle)
  }

  predicate CanRun(c: Config, s: State, steps: seq<Step>)
    decreases |steps|
  {
    steps == [] || (Enabled(c, s, steps[0]) && CanRun(c, After(c, s, steps[0]), steps[1..]))
  }

  function Run(c: Config, s: State, steps: seq<Step>): State
    requires CanRun(c, s, steps)
    decreases |steps|
  {
    if steps == [] then s else Run(c, After(c, s, steps[0]), steps[1..])
  }

  /** The event the loop has taken but not delivered. */
  function InHand(s: State): seq<Event> { if s.loop.Holding? then [s.loop.event] else [] }

  /** Delivered, in hand and stored events, oldest first. */
  function Known(s: State): seq<Event> { s.delivered + InHand(s) + s.store }

  /** The pushed events of the subscribed types, in push order. */
  function Supported(c: Config, steps: seq<Step>): seq<Event>
  {
    if steps == [] then [] else
      var first := steps[0];
      (if first.Push? && first.event.eventType in c.eventTypes then [first.event] else []) + Supported(c, steps[1..])
  }

  /** Events in the store will be looked at: a token is pending, the loop is draining, or a
      producer is about to notify. */
  ghost predicate Attended(s: State)
  {
    s.store != [] ==> s.tokens > 0 || s.loop == Draining || s.loop.Holding? || s.notifying > 0
  }

  lemma StepKeepsOrder(c: Config, s: State, step: Step)
    requires Enabled(c, s, step)
    ensures Known(After(c, s, step)) == Known(s) + Supported(c, [step])
  {
    var s' := After(c, s, step);
    match step
    case Push(e) =>
      assert Supported(c, [step]) == if e.eventType in c.eventTypes then [e] else [];
      assert s.delivered + InHand(s) + (s.store + [e]) == s.delivered + InHand(s) + s.store + [e];
    case Pop =>
      if s.store != [] {
        assert s.store == [s.store[0]] + s.store[1..];
        assert Known(s') == Known(s);
      }
    case Deliver =>
      assert Known(s') == Known(s);
    case _ =>
  }

  lemma StepKeepsAttended(c: Config, s: State, step: Step)
    requires c.capacity > 0 && Attended(s) && Enabled(c, s, step)
    ensures Attended(After(c, s, step))
  {
  }

  lemma {:induction false} RunKeepsOrder(c: Config, s: State, steps: seq<Step>)
    requires CanRun(c, s, steps)
    ensures Known(Run(c, s, steps)) == Known(s) + Supported(c, steps)
    decreases |steps|
  {
    if steps != [] {
      StepKeepsOrder(c, s, steps[0]);
      RunKeepsOrder(c, After(c, s, steps[0]), steps[1..]);
      assert Supported(c, steps) == Supported(c, [steps[0]]) + Supported(c, steps[1..]);
    }
  }

  lemma {:induction false} RunKeepsAttended(c: Config, s: State, steps: seq<Step>)
    requires c.capacity > 0 && Attended(s) && CanRun(c, s, steps)
    ensures Attended(Run(c, s, steps))
    decreases |steps|
  {
    if steps != [] {
      StepKeepsAttended(c, s, steps[0]);
      RunKeepsAttended(c, After(c, s, steps[0]), steps[1..]);
    }
  }

  /** In every interleaving the delivered events, the one in hand and the stored ones are the
      pushed events of the subscribed types, in push order, none lost, none twice; and with a
      buffered channel a non-empty store is always attended to. */
  lemma EventsKeepOrder(c: Config, steps: seq<Step>)
    requires CanRun(c, START, steps)
    ensures var s := Run(c, START, steps);
            s.delivered + InHand(s) + s.store == Supported(c, steps)
    ensures c.capacity > 0 ==> Attended(Run(c, START, steps))
  {
    RunKeepsOrder(c, START, steps);
    if c.capacity > 0 {
      RunKeepsAttended(c, START, steps);
    }
  }

  /** No step of the loop or of a producer already under way is possible. */
  predicate Quiet(c: Config, s: State)
  {
    && !Enabled(c, s, Notify) && !Enabled(c, s, Wake) && !Enabled(c, s, Pop) && !Enabled(c, s, Deliver)
    && !Enabled(c, s, Leave)
  }

  /** Quiet means that every supported event was delivered, in every run: exactly with a notify channel that can hold a
      token. */
  lemma NoLostWakeupIffBuffered(c: Config)
    requires c.eventTypes != []
    ensures c.capacity > 0 <==>
            forall steps :: CanRun(c, START, steps) && Quiet(c, Run(c, START, steps))
                            ==> Run(c, START, steps).delivered == Supported(c, steps)
  {
    if c.capacity > 0 {
      forall steps | CanRun(c, START, steps) && Quiet(c, Run(c, START, steps))
        ensures Run(c, START, steps).delivered == Supported(c, steps)
      {
        EventsKeepOrder(c, steps);
        var s := Run(c, START, steps);
        assert s.delivered + InHand(s) + s.store == s.delivered;
      }
    } else {
      LostWakeup(c);
    }
  }

  /** Without a buffer, a second event pushed while the loop is on its way back to the select
      is notified to nobody. */
  lemma LostWakeup(c: Config)
    requires c.eventTypes != [] && c.capacity == 0
    ensures exists steps :: CanRun(c, START, steps) && Quiet(c, Run(c, START, steps))
                            && Run(c, START, steps).delivered != Supported(c, steps)
  {
    hide CanRun, Run;
    var e := Event(c.eventTypes[0], 0);
    var s1 := State([e], 0, Idle, 1, []);
    var s2 := State([e], 0, Draining, 0, []);
    var s3 := State([], 0, Holding(e), 0, []);
    var s4 := State([], 0, Draining, 0, [e]);
    var s5 := State([], 0, Leaving, 0, [e]);
    var s6 := State([e], 0, Leaving, 1, [e]);
    var s7 := State([e], 0, Leaving, 0, [e]);
    var s8 := State([e], 0, Idle, 0, [e]);
    RunNone(c, s8);
    var fromIdle := [Leave];
    RunOne(c, s7, Leave, s8, [], s8);
    assert [Leave] + [] == fromIdle;
    RunOne(c, s6, Notify, s7, fromIdle, s8);
    var afterPop := [Push(e)] + ([Notify] + fromIdle);
    RunOne(c, s5, Push(e), s6, [Notify] + fromIdle, s8);
    RunOne(c, s4, Pop, s5, afterPop, s8);
    RunOne(c, s3, Deliver, s4, [Pop] + afterPop, s8);
    var drained := [Pop] + ([Deliver] + ([Pop] + afterPop));
    RunOne(c, s2, Pop, s3, [Deliver] + ([Pop] + afterPop), s8);
    RunOne(c, s1, Notify, s2, drained, s8);
    RunOne(c, START, Push(e), s1, [Notify] + drained, s8);
    RunKeepsOrder(c, START, [Push(e)] + ([Notify] + drained));
  }

  lemma RunNone(c: Config, s: State)
    ensures CanRun(c, s, []) && Run(c, s, []) == s
  {
  }

  lemma RunOne(c: Config, s: State, step: Step, s': State, rest: seq<Step>, end: State)
    requires Enabled(c, s, step) && After(c, s, step) == s'
    requires CanRun(c, s', rest) && Run(c, s', rest) == end
    ensures CanRun(c, s, [step] + rest) && Run(c, s, [step] + rest) == end
  {
    assert ([step] + rest)[1..] == rest;
  }
}
