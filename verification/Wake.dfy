/** One event channel between the interrupt handler and the consumer waiting in `next_key` or `next_mouse_state`: a
    bounded queue, a waker cell, and every interleaving of the two sides' atomic steps. */
module Wake {
  import opened Wrappers

  const CAPACITY: nat := 32

  /** The handler holds the driver lock from before its push until after its wake. */
  datatype Handler = Idle | Pushed

  /** Where the waiting task stands in its poll closure. */
  datatype Consumer<T> =
    | Start                       // about to look at the queue
    | Missed                      // the fast path found nothing
    | Registered                  // the waker is in place, about to look again
    | Claimed(item: T)            // the second look found an item, the waker is still to be taken out
    | Parked                      // returned Pending
    | Returned(r: Option<T>)      // returned Ready

  /** `ready`: the queue has been initialised; `waker`: a waker is registered; `woken`: the consumer has been woken
      and the executor owes it a poll. */
  datatype State<T> = State(
    ready: bool, queue: seq<T>, waker: bool, woken: bool, handler: Handler, consumer: Consumer<T>)

  datatype Step<T> =
    | Init
    | Interrupt(item: T)
    | WakeUp
    | Call
    | Poll
    | Look
    | Register
    | LookAgain
    | TakeWaker

  predicate Enabled<T>(s: State<T>, t: Step<T>) {
    match t
    case Init => !s.ready
    case Interrupt(_) => s.handler == Idle
    case WakeUp => s.handler == Pushed
    case Call => s.consumer.Returned?
    case Poll => s.consumer.Parked?
    case Look => s.consumer.Start?
    case Register => s.consumer.Missed?
    case LookAgain => s.consumer.Registered?
    case TakeWaker => s.consumer.Claimed?
  }

  function Next<T>(s: State<T>, t: Step<T>): (s': State<T>)
    requires Enabled(s, t)
  {
    match t
    case Init => s.(ready := true)
    case Interrupt(item) =>
      if !s.ready then s
      else if |s.queue| < CAPACITY then s.(queue := s.queue + [item], handler := Pushed)
      else s
    case WakeUp => s.(handler := Idle, waker := false, woken := s.woken || s.waker)
    case Call => s.(consumer := Start)
    case Poll => s.(consumer := Start, woken := false)
    case Look =>
      if !s.ready then s.(consumer := Returned(None))
      else if s.queue != [] then s.(consumer := Returned(Some(s.queue[0])), queue := s.queue[1..])
      else s.(consumer := Missed)
    case Register => s.(consumer := Registered, waker := true)
    case LookAgain =>
      if s.queue != [] then s.(consumer := Claimed(s.queue[0]), queue := s.queue[1..])
      else s.(consumer := Parked)
    case TakeWaker => s.(consumer := Returned(Some(s.consumer.item)), waker := false)
  }

  function InitialState<T>(): (s: State<T>)
  {
    State(false, [], false, false, Idle, Start)
  }

  function Run<T>(s: State<T>, ts: seq<Step<T>>): (r: Option<State<T>>)
  {
    if ts == [] then Some(s)
    else
      match Run(s, ts[..|ts| - 1])
      case None => None
      case Some(u) => if Enabled(u, ts[|ts| - 1]) then Some(Next(u, ts[|ts| - 1])) else None
  }

  /** The run so far, without its last step. */
  function Before<T>(ts: seq<Step<T>>): (ts': seq<Step<T>>)
    requires ts != []
  {
    ts[..|ts| - 1]
  }

  ghost predicate Possible<T>(ts: seq<Step<T>>) { Run(InitialState<T>(), ts).Some? }

  ghost function After<T>(ts: seq<Step<T>>): (s: State<T>)
    requires Possible(ts)
  {
    Run(InitialState<T>(), ts).value
  }

  // ---- What went in and what came out ---------------------------------------------------------

  /** The items interrupts brought while the queue was there and had room. */
  ghost function Accepted<T>(ts: seq<Step<T>>): (items: seq<T>)
    requires Possible(ts)
  {
    if ts == [] then []
    else
      var u, t := After(Before(ts)), ts[|ts| - 1];
      Accepted(Before(ts)) + if t.Interrupt? && Init in Before(ts) && |u.queue| < CAPACITY then [t.item] else []
  }

  /** What the consumer's calls have returned: the values of the `Returned` states it entered. */
  ghost function Answers<T>(ts: seq<Step<T>>): (rs: seq<Option<T>>)
    requires Possible(ts)
  {
    if ts == [] then []
    else Answers(Before(ts)) + Answer(After(Before(ts)).consumer, After(ts).consumer)
  }

  function Answer<T>(c: Consumer<T>, c': Consumer<T>): (rs: seq<Option<T>>)
  {
    if c'.Returned? && !c.Returned? then [c'.r] else []
  }

  function Items<T>(rs: seq<Option<T>>): (items: seq<T>)
  {
    if rs == [] then []
    else Items(rs[..|rs| - 1]) + match rs[|rs| - 1] case None => [] case Some(x) => [x]
  }

  lemma ItemsSnoc<T>(rs: seq<Option<T>>, r: Option<T>)
    ensures Items(rs + []) == Items(rs)
    ensures Items(rs + [r]) == if r == None then Items(rs) else Items(rs) + [r.value]
  {
    assert rs + [] == rs && (rs + [r])[..|rs|] == rs;
  }

  /** An item popped by the second look but not yet returned. */
  function InHand<T>(s: State<T>): (items: seq<T>)
  {
    if s.consumer.Claimed? then [s.consumer.item] else []
  }

  /** Accepted and not yet returned, oldest first. */
  function Held<T>(s: State<T>): (items: seq<T>) { InHand(s) + s.queue }

  // ---- Invariant ------------------------------------------------------------------------------

  /** While the consumer is between registering and being woken, its waker is in the cell; and if it is parked with
      something to read, a handler is about to wake it. */
  ghost predicate Inv<T>(s: State<T>) {
    && (s.consumer.Registered? || s.consumer.Parked? ==> s.woken || s.waker)
    && (s.consumer.Parked? && s.queue != [] ==> s.woken || s.handler == Pushed)
    && (s.consumer.Missed? || s.consumer.Registered? || s.consumer.Parked? || s.consumer.Claimed? || s.queue != [] ==>
          s.ready)
    && |s.queue| <= CAPACITY
  }

  lemma NextKeeps<T>(s: State<T>, t: Step<T>)
    requires Inv(s) && Enabled(s, t)
    ensures Inv(Next(s, t))
  {
  }

  lemma {:induction false} RunKeeps<T>(ts: seq<Step<T>>)
    requires Possible(ts)
    ensures Inv(After(ts))
    ensures After(ts).ready <==> Init in ts
  {
    if ts != [] {
      RunKeeps<T>(Before(ts));
      NextKeeps(After(Before(ts)), ts[|ts| - 1]);
      assert ts == Before(ts) + [ts[|ts| - 1]];
    }
  }

  /** Nothing is lost, made up or reordered between the queue's two ends. */
  ghost predicate InStep<T>(accepted: seq<T>, answers: seq<Option<T>>, s: State<T>) {
    accepted == Items(answers) + Held(s)
  }

  lemma {:induction false} RunInStep<T>(ts: seq<Step<T>>)
    requires Possible(ts)
    ensures InStep(Accepted(ts), Answers(ts), After(ts))
  {
    if ts != [] {
      RunInStep(Before(ts));
      RunKeeps(Before(ts));
      NextInStep(Accepted(Before(ts)), Answers(Before(ts)), After(Before(ts)), ts[|ts| - 1]);
    }
  }

  lemma NextInStep<T>(accepted: seq<T>, answers: seq<Option<T>>, s: State<T>, t: Step<T>)
    requires InStep(accepted, answers, s) && Enabled(s, t)
    ensures var s' := Next(s, t);
            InStep(accepted + (if t.Interrupt? && s.ready && |s.queue| < CAPACITY then [t.item] else []),
                   answers + Answer(s.consumer, s'.consumer), s')
  {
    var given, c', s' := Items(answers), Next(s, t).consumer, Next(s, t);
    ItemsSnoc(answers, if c'.Returned? then c'.r else None);
    NextInOrder(s, t);
    assert given + [] == given && Items(answers + Answer(s.consumer, c')) == given + Out(s, t);
    Regroup(given, Held(s), if t.Interrupt? && s.ready && |s.queue| < CAPACITY then [t.item] else []);
    Regroup(given, Out(s, t), Held(s'));
  }

  lemma Regroup<T>(a: seq<T>, b: seq<T>, c: seq<T>)
    ensures a + b + c == a + (b + c)
  {
  }

  /** What a step hands to the caller. */
  function Out<T>(s: State<T>, t: Step<T>): (items: seq<T>)
    requires Enabled(s, t)
  {
    var c' := Next(s, t).consumer;
    if c'.Returned? && c'.r.Some? && !s.consumer.Returned? then [c'.r.value] else []
  }

  lemma NextInOrder<T>(s: State<T>, t: Step<T>)
    requires Enabled(s, t)
    ensures Held(s) + (if t.Interrupt? && s.ready && |s.queue| < CAPACITY then [t.item] else [])
            == Out(s, t) + Held(Next(s, t))
  {
    match t
    case Interrupt(item) => Regroup(InHand(s), s.queue, [item]);
    case _ => assert Held(s) + [] == Held(s) == Out(s, t) + Held(Next(s, t));
  }

  /** No lost wake-up: after every interleaving, a parked consumer with something to read has been woken or has a
      handler between its push and its wake, with the waker in place for it. Once no handler is running and no
      wake is pending, a parked consumer has nothing to read. */
  lemma NoLostWakeUp<T>(ts: seq<Step<T>>)
    requires Possible(ts)
    ensures var s := After(ts);
            && (s.consumer.Parked? && s.queue != [] ==> s.woken || (s.handler == Pushed && s.waker))
            && (s.consumer.Parked? && s.handler == Idle && !s.woken ==> s.queue == [])
  {
    RunKeeps<T>(ts);
  }

  /** The items the consumer's calls returned are a prefix, in order and without gaps, of what the queue accepted;
      what is left is still queued or in the consumer's hand. */
  lemma InOrder<T>(ts: seq<Step<T>>)
    requires Possible(ts)
    ensures var given := Items(Answers(ts));
            given <= Accepted(ts) && Accepted(ts)[|given|..] == Held(After(ts))
  {
    RunInStep<T>(ts);
  }

  /** A call returns None exactly when it looks before the queue has been initialised. */
  lemma NoneIff<T>(ts: seq<Step<T>>, t: Step<T>)
    requires Possible(ts) && Enabled(After(ts), t)
    ensures Possible(ts + [t]) && (Answers(ts + [t]) == Answers(ts) + [None] <==> t == Look && Init !in ts)
  {
    RunKeeps<T>(ts);
    RunOneMore(InitialState<T>(), ts, t);
    assert Before(ts + [t]) == ts;
    var more := Answer(After(ts).consumer, After(ts + [t]).consumer);
    assert Answers(ts) + more == Answers(ts) + [None] <==> more == [None] by {
      assert more == (Answers(ts) + more)[|Answers(ts)|..] && (Answers(ts) + [None])[|Answers(ts)|..] == [None];
    }
  }

  /** An interrupt's item is dropped exactly if the queue is not there yet or 32 accepted items have still to be
      taken out. */
  lemma DroppedIff<T>(ts: seq<Step<T>>, item: T)
    requires Possible(ts) && After(ts).handler == Idle
    ensures Possible(ts + [Interrupt(item)])
    ensures var waiting := |Accepted(ts)| - |Items(Answers(ts))| - |InHand(After(ts))|;
            && waiting <= 32
            && Accepted(ts + [Interrupt(item)])
               == if Init !in ts || waiting == 32 then Accepted(ts) else Accepted(ts) + [item]
  {
    RunKeeps<T>(ts);
    RunInStep<T>(ts);
    RunOneMore(InitialState<T>(), ts, Interrupt(item));
    assert Before(ts + [Interrupt(item)]) == ts;
  }

  // ---- The waker ------------------------------------------------------------------------------

  /** Step `i` put the waker into the cell and it has not been taken out since. */
  ghost predicate ArmedAt<T>(ts: seq<Step<T>>, i: nat) {
    i < |ts| && ts[i] == Register && forall j :: i < j < |ts| ==> ts[j] != WakeUp && ts[j] != TakeWaker
  }

  /** Step `i` woke the consumer and it has not been polled since. */
  ghost predicate WokenAt<T>(ts: seq<Step<T>>, i: nat)
    requires Possible(ts)
  {
    && i < |ts| && ts[i] == WakeUp && (forall j :: i < j < |ts| ==> ts[j] != Poll)
    && Possible(ts[..i]) && After(ts[..i]).waker
  }

  /** A waker is in the cell exactly if it was registered and neither a handler nor its owner has taken it out. */
  lemma {:induction false} WakerIff<T>(ts: seq<Step<T>>)
    requires Possible(ts)
    ensures After(ts).waker <==> exists i :: ArmedAt(ts, i)
  {
    if ts != [] {
      var ts', t := Before(ts), ts[|ts| - 1];
      WakerIff(ts');
      if t == Register {
        assert ArmedAt(ts, |ts| - 1);
      } else if t != WakeUp && t != TakeWaker {
        forall i: nat ensures ArmedAt(ts, i) <==> ArmedAt(ts', i) {}
      }
    }
  }

  /** A poll is owed exactly if a handler found the waker and the consumer has not been polled since. */
  lemma {:induction false} WokenIff<T>(ts: seq<Step<T>>)
    requires Possible(ts)
    ensures After(ts).woken <==> exists i :: WokenAt(ts, i)
  {
    if ts != [] {
      var ts', t := Before(ts), ts[|ts| - 1];
      WokenIff(ts');
      assert forall i :: 0 <= i < |ts| ==> ts'[..i] == ts[..i];
      if t == WakeUp && After(ts').waker { assert WokenAt(ts, |ts| - 1); }
      forall i: nat | i < |ts'| && t != Poll ensures WokenAt(ts, i) <==> WokenAt(ts', i) {}
    }
  }

  lemma RunOneMore<T>(s: State<T>, ts: seq<Step<T>>, t: Step<T>)
    requires Run(s, ts).Some? && Enabled(Run(s, ts).value, t)
    ensures Run(s, ts + [t]) == Some(Next(Run(s, ts).value, t))
  {
    assert (ts + [t])[..|ts|] == ts;
  }

  /** The steps that must follow when the consumer is parked with something to read: the handler's wake if it is still
      due, then the poll the executor owes, then the fast path. */
  function Drain<T>(s: State<T>): (us: seq<Step<T>>)
  {
    (if s.handler == Pushed then [WakeUp] else []) + [Poll, Look]
  }

  /** Delivery: whenever the consumer is parked with something to read, those steps are enabled, the poll is one the
      executor owes, and they return the oldest item. */
  lemma ParkedIsServed<T>(ts: seq<Step<T>>)
    requires Possible(ts) && After(ts).consumer.Parked? && After(ts).queue != []
    ensures var s := After(ts);
            var us := Drain(s);
            && Run(s, us[..|us| - 2]).Some? && Run(s, us[..|us| - 2]).value.woken
            && Run(s, us).Some? && Run(s, us).value.consumer == Returned(Some(s.queue[0]))
  {
    RunKeeps<T>(ts);
    var s := After(ts);
    var owed: seq<Step<T>> := if s.handler == Pushed then [WakeUp] else [];
    if s.handler == Pushed {
      RunOneMore(s, [], WakeUp);
      assert [] + [WakeUp] == owed;
    }
    RunOneMore(s, owed, Poll);
    RunOneMore(s, owed + [Poll], Look);
    assert owed + [Poll] + [Look] == Drain(s) && Drain(s)[..|Drain(s)| - 2] == owed;
  }
}
