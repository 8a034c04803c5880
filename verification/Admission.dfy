/**
 Admission of connections (main.c): every listener thread takes a slot of one counting
 semaphore, built from a mutex and a condition variable, before it hands a connection to
 a handler thread, and the slot is given back on three different exits.

 Threads interleave at the mutex, so each critical section is one step.  `acquire` is
 split at its condition wait: test, sleep, wake, test again.
 */
module Admission {

  /** A connection, by the order in which connections were accepted. */
  type Conn = nat

  /** Where a listener thread is in its accept loop.
      - `Accepting`: about to accept, or to leave the loop
      - `Entering(c)`: in `conn_semaphore_acquire` for `c`, not yet tested
      - `Sleeping(c)`: in `pthread_cond_wait`
      - `Woken(c)`: returned from the wait, not yet tested again
      - `Holding(c)`: `acquire` has returned
      - `Aborting(c)`: the arguments or the thread could not be created */
  datatype Listener =
    | Accepting
    | Entering(conn: Conn)
    | Sleeping(conn: Conn)
    | Woken(conn: Conn)
    | Holding(conn: Conn)
    | Aborting(conn: Conn)
    | Stopped

  /** `acquired` and `released` record, for the proofs, on whose behalf `count` was ever
      raised and lowered. */
  datatype State = State(
    count: int, max: int,
    listeners: seq<Listener>, handlers: multiset<Conn>,
    next: Conn, acquired: multiset<Conn>, released: multiset<Conn>)

  function Init(listeners: nat, max: int): (s: State) {
    State(0, max, seq(listeners, _ => Accepting), multiset{}, 0, multiset{}, multiset{})
  }

  datatype Event =
    | Accept(l: nat)
    | Stop(l: nat)
    | Test(l: nat)                    // the loop test of `acquire`, first time or again
    | Wake(l: nat)                    // a wait that ends without a signal
    | SetupFails(l: nat)              // malloc or pthread_create fails
    | StartHandler(l: nat)
    | Abort(l: nat, signalled: nat)   // release by the listener
    | Finish(c: Conn, signalled: nat) // release by the handler of `c`

  predicate At(s: State, l: nat) { l < |s.listeners| }

  /** `pthread_cond_signal` unblocks one sleeper if there is one. */
  predicate MaySignal(s: State, w: nat) {
    if exists l :: 0 <= l < |s.listeners| && s.listeners[l].Sleeping?
    then At(s, w) && s.listeners[w].Sleeping?
    else true
  }

  predicate Enabled(s: State, e: Event) {
    match e
    case Accept(l) => At(s, l) && s.listeners[l].Accepting?
    case Stop(l) => At(s, l) && s.listeners[l].Accepting?
    case Test(l) => At(s, l) && (s.listeners[l].Entering? || s.listeners[l].Woken?)
    case Wake(l) => At(s, l) && s.listeners[l].Sleeping?
    case SetupFails(l) => At(s, l) && s.listeners[l].Holding?
    case StartHandler(l) => At(s, l) && s.listeners[l].Holding?
    case Abort(l, w) => At(s, l) && s.listeners[l].Aborting? && MaySignal(s, w)
    case Finish(c, w) => c in s.handlers && MaySignal(s, w)
  }

  function Signal(ls: seq<Listener>, w: nat): (r: seq<Listener>) {
    if w < |ls| && ls[w].Sleeping? then ls[w := Woken(ls[w].conn)] else ls
  }

  function Step(s: State, e: Event): (s': State)
    requires Enabled(s, e)
  {
    match e
    case Accept(l) => s.(listeners := s.listeners[l := Entering(s.next)], next := s.next + 1)
    case Stop(l) => s.(listeners := s.listeners[l := Stopped])
    case Test(l) =>
      var c := s.listeners[l].conn;
      if s.count >= s.max then s.(listeners := s.listeners[l := Sleeping(c)])
      else s.(count := s.count + 1, listeners := s.listeners[l := Holding(c)],
              acquired := s.acquired + multiset{c})
    case Wake(l) => s.(listeners := s.listeners[l := Woken(s.listeners[l].conn)])
    case SetupFails(l) => s.(listeners := s.listeners[l := Aborting(s.listeners[l].conn)])
    case StartHandler(l) =>
      s.(listeners := s.listeners[l := Accepting],
         handlers := s.handlers + multiset{s.listeners[l].conn})
    case Abort(l, w) =>
      s.(count := s.count - 1, listeners := Signal(s.listeners[l := Accepting], w),
         released := s.released + multiset{s.listeners[l].conn})
    case Finish(c, w) =>
      s.(count := s.count - 1, listeners := Signal(s.listeners, w),
         handlers := s.handlers - multiset{c}, released := s.released + multiset{c})
  }

  predicate Possible(s: State, es: seq<Event>)
    decreases es
  {
    es == [] || (Enabled(s, es[0]) && Possible(Step(s, es[0]), es[1..]))
  }

  function Run(s: State, es: seq<Event>): (s': State)
    requires Possible(s, es)
    decreases es
  {
    if es == [] then s else Run(Step(s, es[0]), es[1..])
  }

  // ---------------------------------------------------------------- what is counted

  /** The sum of `f` over all listeners. */
  function Tally(f: Listener -> nat, ls: seq<Listener>): (n: nat) {
    if ls == [] then 0 else f(ls[0]) + Tally(f, ls[1..])
  }

  function Bit(b: bool): (n: nat) { if b then 1 else 0 }

  /** Listeners that hold a slot. */
  function Owning(): (f: Listener -> nat) {
    (x: Listener) => Bit(x.Holding? || x.Aborting?)
  }

  /** Listeners that hold a slot for `c`. */
  function OwningFor(c: Conn): (f: Listener -> nat) {
    (x: Listener) => Bit((x.Holding? || x.Aborting?) && x.conn == c)
  }

  /** Listeners still inside `acquire` for `c`. */
  function QueuedFor(c: Conn): (f: Listener -> nat) {
    (x: Listener) => Bit((x.Entering? || x.Sleeping? || x.Woken?) && x.conn == c)
  }

  /** Listeners woken but not yet tested again. */
  function Awakened(): (f: Listener -> nat) {
    (x: Listener) => Bit(x.Woken?)
  }

  lemma {:induction false} TallyReplace(f: Listener -> nat, ls: seq<Listener>, l: nat, x: Listener)
    requires l < |ls|
    ensures Tally(f, ls[l := x]) + f(ls[l]) == Tally(f, ls) + f(x)
  {
    if l > 0 {
      TallyReplace(f, ls[1..], l - 1, x);
      assert ls[l := x][1..] == ls[1..][l - 1 := x];
    } else {
      assert ls[l := x][1..] == ls[1..];
    }
  }

  lemma TallySignal(f: Listener -> nat, ls: seq<Listener>, w: nat)
    ensures Tally(f, Signal(ls, w)) == Tally(f, ls) + SignalEffect(f, ls, w)
  {
    if w < |ls| && ls[w].Sleeping? {
      TallyReplace(f, ls, w, Woken(ls[w].conn));
    }
  }

  function SignalEffect(f: Listener -> nat, ls: seq<Listener>, w: nat): (n: int) {
    if w < |ls| && ls[w].Sleeping? then f(Woken(ls[w].conn)) - f(ls[w]) else 0
  }

  lemma TallyStep(f: Listener -> nat, s: State, e: Event)
    requires Enabled(s, e)
    ensures var before, after := Tally(f, s.listeners), Tally(f, Step(s, e).listeners);
            match e
            case Finish(c, w) => after == before + SignalEffect(f, s.listeners, w)
            case Abort(l, w) =>
              after + f(s.listeners[l]) == before + f(Accepting)
                                         + SignalEffect(f, s.listeners[l := Accepting], w)
            case _ => after + f(s.listeners[e.l]) == before + f(Step(s, e).listeners[e.l])
  {
    match e
    case Finish(c, w) => TallySignal(f, s.listeners, w);
    case Abort(l, w) =>
      TallyReplace(f, s.listeners, l, Accepting);
      TallySignal(f, s.listeners[l := Accepting], w);
    case _ => TallyReplace(f, s.listeners, e.l, Step(s, e).listeners[e.l]);
  }

  lemma {:induction false} TallyZero(f: Listener -> nat, ls: seq<Listener>)
    requires f(Accepting) == 0
    requires forall l :: 0 <= l < |ls| ==> ls[l] == Accepting
    ensures Tally(f, ls) == 0
  {
    if ls != [] {
      TallyZero(f, ls[1..]);
    }
  }

  /** How many slots are held for `c`, by its listener or by its handler. */
  function SlotsOf(s: State, c: Conn): (n: nat) {
    Tally(OwningFor(c), s.listeners) + s.handlers[c]
  }

  ghost predicate SomeoneSleeps(s: State) {
    exists l :: 0 <= l < |s.listeners| && s.listeners[l].Sleeping?
  }

  /** The raises and lowerings of the count for `c` balance, and a connection that was
      accepted waits for its slot or has had it, once. */
  ghost predicate Settled(s: State, c: Conn) {
    && s.acquired[c] == s.released[c] + SlotsOf(s, c)
    && Tally(QueuedFor(c), s.listeners) + s.acquired[c] == Bit(c < s.next)
  }

  ghost predicate Balanced(s: State) {
    && s.count == Tally(Owning(), s.listeners) + |s.handlers|
    && forall c :: Settled(s, c)
  }

  ghost predicate WithinBounds(s: State) {
    0 <= s.count && (s.count <= s.max || s.count == 0)
  }

  /** Free slots never outnumber the threads already on their way to take them. */
  ghost predicate NoLostWakeup(s: State) {
    SomeoneSleeps(s) ==> s.max - s.count <= Tally(Awakened(), s.listeners)
  }

  lemma SignalSettles(s: State, ls: seq<Listener>, w: nat, c: Conn)
    requires Settled(s.(listeners := ls), c)
    ensures Settled(s.(listeners := Signal(ls, w)), c)
  {
    TallySignal(OwningFor(c), ls, w);
    TallySignal(QueuedFor(c), ls, w);
  }

  lemma ReleaseSettles(s: State, e: Event, c: Conn)
    requires Enabled(s, e) && Settled(s, c) && (e.Finish? || e.Abort?)
    ensures Settled(Step(s, e), c)
  {
    var s' := Step(s, e);
    if e.Finish? {
      SignalSettles(s', s.listeners, e.signalled, c);
    } else {
      TallyReplace(OwningFor(c), s.listeners, e.l, Accepting);
      TallyReplace(QueuedFor(c), s.listeners, e.l, Accepting);
      SignalSettles(s', s.listeners[e.l := Accepting], e.signalled, c);
    }
  }

  lemma StepSettled(s: State, e: Event, c: Conn)
    requires Enabled(s, e) && Settled(s, c)
    ensures Settled(Step(s, e), c)
  {
    if e.Finish? || e.Abort? {
      ReleaseSettles(s, e, c);
    } else {
      TallyStep(OwningFor(c), s, e);
      TallyStep(QueuedFor(c), s, e);
    }
  }

  lemma StepBalanced(s: State, e: Event)
    requires Enabled(s, e) && Balanced(s)
    ensures Balanced(Step(s, e))
  {
    TallyStep(Owning(), s, e);
    forall c ensures Settled(Step(s, e), c) {
      StepSettled(s, e, c);
    }
  }

  lemma StepWithinBounds(s: State, e: Event)
    requires Enabled(s, e) && Balanced(s) && WithinBounds(s)
    ensures WithinBounds(Step(s, e))
  {
    StepBalanced(s, e);
  }

  lemma StepNoLostWakeup(s: State, e: Event)
    requires Enabled(s, e) && NoLostWakeup(s)
    ensures NoLostWakeup(Step(s, e))
  {
    TallyStep(Awakened(), s, e);
    var s' := Step(s, e);
    if l :| 0 <= l < |s'.listeners| && s'.listeners[l].Sleeping? && s.listeners[l].Sleeping? {
      assert SomeoneSleeps(s);
    }
  }

  ghost predicate Sound(s: State) { Balanced(s) && WithinBounds(s) && NoLostWakeup(s) }

  lemma StepSound(s: State, e: Event)
    requires Enabled(s, e) && Sound(s)
    ensures Sound(Step(s, e))
  {
    StepBalanced(s, e);
    StepWithinBounds(s, e);
    StepNoLostWakeup(s, e);
  }

  lemma {:induction false} RunKeeps(s: State, es: seq<Event>)
    requires Possible(s, es) && Sound(s)
    ensures Sound(Run(s, es)) && Run(s, es).max == s.max
    decreases es
  {
    if es != [] {
      StepSound(s, es[0]);
      RunKeeps(Step(s, es[0]), es[1..]);
    }
  }

  lemma InitKeeps(listeners: nat, max: int)
    ensures Sound(Init(listeners, max))
  {
    var s := Init(listeners, max);
    TallyZero(Owning(), s.listeners);
    forall c ensures Settled(s, c) {
      TallyZero(OwningFor(c), s.listeners);
      TallyZero(QueuedFor(c), s.listeners);
    }
  }

  /** Slot conservation, for every run of any number of listeners and their handlers:
      the count is the number of slots held and stays within 0..max; an accepted connection
      waits for a slot or has taken one, never two, and has given it back exactly once when
      it no longer holds it. */
  lemma SlotConservation(listeners: nat, max: nat, es: seq<Event>)
    requires Possible(Init(listeners, max), es)
    ensures var s := Run(Init(listeners, max), es);
            && s.count == Tally(Owning(), s.listeners) + |s.handlers|
            && 0 <= s.count <= max
            && forall c: Conn ::
                 && s.acquired[c] == s.released[c] + SlotsOf(s, c)
                 && Tally(QueuedFor(c), s.listeners) + s.acquired[c] == if c < s.next then 1 else 0
  {
    InitKeeps(listeners, max);
    RunKeeps(Init(listeners, max), es);
    var s := Run(Init(listeners, max), es);
    forall c: Conn
      ensures s.acquired[c] == s.released[c] + SlotsOf(s, c)
      ensures Tally(QueuedFor(c), s.listeners) + s.acquired[c] == if c < s.next then 1 else 0
    {
      assert Settled(s, c);
    }
  }

  /** No lost wakeup, for every run: while anyone sleeps, the free slots do not exceed
      the woken threads that have yet to test again; so if nobody is on the way, every
      slot is in use. */
  lemma NoWakeupIsLost(listeners: nat, max: int, es: seq<Event>)
    requires Possible(Init(listeners, max), es)
    requires SomeoneSleeps(Run(Init(listeners, max), es))
    ensures var s := Run(Init(listeners, max), es);
            && max - s.count <= Tally(Awakened(), s.listeners)
            && (Tally(Awakened(), s.listeners) == 0 && max >= 0 ==>
                  Tally(Owning(), s.listeners) + |s.handlers| == max)
  {
    InitKeeps(listeners, max);
    RunKeeps(Init(listeners, max), es);
  }

  // ---------------------------------------------------------------- where listeners go

  /** How often `e` happens in `es`. */
  function Times(es: seq<Event>, e: Event): (n: nat) {
    if es == [] then 0 else Bit(es[0] == e) + Times(es[1..], e)
  }

  /** How often listener `l` gives a slot back, whomever that wakes. */
  function Aborts(es: seq<Event>, l: nat): (n: nat) {
    if es == [] then 0 else Bit(es[0].Abort? && es[0].l == l) + Aborts(es[1..], l)
  }

  /** How many listeners stop. */
  function Stops(es: seq<Event>): (n: nat) {
    if es == [] then 0 else Bit(es[0].Stop?) + Stops(es[1..])
  }

  /** A listener queues for a slot or holds one. */
  predicate Busy(x: Listener) { x.Entering? || x.Sleeping? || x.Woken? || x.Holding? || x.Aborting? }

  /** One step, seen by one listener. */
  lemma ListenerStep(s: State, e: Event, l: nat)
    requires Enabled(s, e) && At(s, l)
    ensures var x, x' := s.listeners[l], Step(s, e).listeners[l];
            && |Step(s, e).listeners| == |s.listeners|
            && Bit(Busy(x)) + Bit(e == Accept(l)) ==
               Bit(Busy(x')) + Bit(e == StartHandler(l)) + Bit(e.Abort? && e.l == l)
            && Bit(x == Stopped) + Bit(e == Stop(l)) == Bit(x' == Stopped)
  {
    match e
    case Finish(c, w) => SignalKeepsPlace(s.listeners, w, l);
    case Abort(k, w) => SignalKeepsPlace(s.listeners[k := Accepting], w, l);
    case _ =>
  }

  lemma SignalKeepsPlace(ls: seq<Listener>, w: nat, l: nat)
    requires l < |ls|
    ensures |Signal(ls, w)| == |ls|
    ensures Busy(Signal(ls, w)[l]) == Busy(ls[l]) && Signal(ls, w)[l].Stopped? == ls[l].Stopped?
  {
  }

  lemma {:induction false} ListenerTurns(s: State, es: seq<Event>, l: nat)
    requires Possible(s, es) && At(s, l)
    ensures var s' := Run(s, es);
            && |s'.listeners| == |s.listeners|
            && Bit(Busy(s.listeners[l])) + Times(es, Accept(l)) ==
               Bit(Busy(s'.listeners[l])) + Times(es, StartHandler(l)) + Aborts(es, l)
            && Bit(s.listeners[l] == Stopped) + Times(es, Stop(l)) == Bit(s'.listeners[l] == Stopped)
    decreases es
  {
    if es != [] {
      ListenerStep(s, es[0], l);
      ListenerTurns(Step(s, es[0]), es[1..], l);
    }
  }

  /** Every listener keeps serving, in every run: each connection it accepted was handed
      over or given up, except the one it is busy with, and unless it was stopped it is
      ready to accept whenever it is not busy. */
  lemma ListenersKeepServing(listeners: nat, max: int, es: seq<Event>, l: nat)
    requires Possible(Init(listeners, max), es) && l < listeners
    ensures var s := Run(Init(listeners, max), es);
            && |s.listeners| == listeners
            && var busy := !Enabled(s, Accept(l)) && Times(es, Stop(l)) == 0;
            && Times(es, Accept(l)) == Times(es, StartHandler(l)) + Aborts(es, l) + Bit(busy)
            && (busy ==> Busy(s.listeners[l]))
            && (Times(es, Stop(l)) > 0 ==> s.listeners[l] == Stopped)
  {
    ListenerTurns(Init(listeners, max), es, l);
  }

  function StoppedBit(): (f: Listener -> nat) {
    (x: Listener) => Bit(x.Stopped?)
  }

  lemma {:induction false} StopsCounted(s: State, es: seq<Event>)
    requires Possible(s, es)
    ensures Tally(StoppedBit(), Run(s, es).listeners) == Tally(StoppedBit(), s.listeners) + Stops(es)
    decreases es
  {
    if es != [] {
      TallyStep(StoppedBit(), s, es[0]);
      StopsCounted(Step(s, es[0]), es[1..]);
    }
  }

  /** As many listeners have stopped as `Stop` events happened: nothing else stops one. */
  lemma OnlyStopStops(listeners: nat, max: int, es: seq<Event>)
    requires Possible(Init(listeners, max), es)
    ensures Tally(StoppedBit(), Run(Init(listeners, max), es).listeners) == Stops(es)
  {
    TallyZero(StoppedBit(), Init(listeners, max).listeners);
    StopsCounted(Init(listeners, max), es);
  }

  // ---------------------------------------------------------------- the code

  /** The semaphore, the listeners parked on it and the handlers; every method is what
      one thread does between two points where another may run, and keeps the server sound:
      `count` is the number of slots held, within its bounds, and no wakeup is lost. */
  class Server {
    const max: int
    var count: int
    var listeners: seq<Listener>
    var handlers: multiset<Conn>
    var next: Conn
    ghost var acquired: multiset<Conn>
    ghost var released: multiset<Conn>

    ghost function View(): (s: State)
      reads this
    {
      State(count, max, listeners, handlers, next, acquired, released)
    }

    ghost predicate Valid()
      reads this
    {
      Sound(View())
    }

    constructor (listenerCount: nat, max: int)
      ensures Valid() && View() == Init(listenerCount, max)
    {
      InitKeeps(listenerCount, max);
      this.count, this.max := 0, max;
      listeners := seq(listenerCount, _ => Accepting);
      handlers, next := multiset{}, 0;
      acquired, released := multiset{}, multiset{};
    }

    method AcceptConnection(l: nat)
      requires Valid() && Enabled(View(), Accept(l))
      modifies this
      ensures Valid() && View() == Step(old(View()), Accept(l))
    {
      StepSound(View(), Accept(l));
      listeners := listeners[l := Entering(next)];
      next := next + 1;
    }

    /** One pass of the loop in `conn_semaphore_acquire`, under the mutex. */
    method TestOrWait(l: nat)
      requires Valid() && Enabled(View(), Test(l))
      modifies this
      ensures Valid() && View() == Step(old(View()), Test(l))
    {
      StepSound(View(), Test(l));
      var c := listeners[l].conn;
      if count >= max {
        listeners := listeners[l := Sleeping(c)];
        return;
      }
      count := count + 1;
      listeners := listeners[l := Holding(c)];
      acquired := acquired + multiset{c};
    }

    /** `conn_semaphore_release`: lower the count and signal. */
    method Release(signalled: nat)
      modifies this`count, this`listeners
      ensures count == old(count) - 1 && listeners == Signal(old(listeners), signalled)
    {
      count := count - 1;
      if signalled < |listeners| && listeners[signalled].Sleeping? {
        listeners := listeners[signalled := Woken(listeners[signalled].conn)];
      }
    }

    /** The tail of `listener_thread`'s loop body once `acquire` has returned. */
    method HandOver(l: nat, created: bool)
      requires Valid() && Enabled(View(), StartHandler(l))
      modifies this
      ensures Valid() && View() == Step(old(View()), if created then StartHandler(l) else SetupFails(l))
      ensures created ==> Enabled(View(), Accept(l)) && handlers == old(handlers) + multiset{old(listeners[l].conn)}
    {
      StepSound(View(), if created then StartHandler(l) else SetupFails(l));
      var c := listeners[l].conn;
      if created {
        handlers := handlers + multiset{c};
        listeners := listeners[l := Accepting];
      } else {
        listeners := listeners[l := Aborting(c)];
      }
    }

    method GiveUp(l: nat, signalled: nat)
      requires Valid() && Enabled(View(), Abort(l, signalled))
      modifies this
      ensures Valid() && View() == Step(old(View()), Abort(l, signalled))
      ensures Enabled(View(), Accept(l))
    {
      StepSound(View(), Abort(l, signalled));
      released := released + multiset{listeners[l].conn};
      listeners := listeners[l := Accepting];
      Release(signalled);
    }

    /** The end of `connection_handler`. */
    method FinishHandler(c: Conn, signalled: nat)
      requires Valid() && Enabled(View(), Finish(c, signalled))
      modifies this
      ensures Valid() && View() == Step(old(View()), Finish(c, signalled))
    {
      StepSound(View(), Finish(c, signalled));
      handlers := handlers - multiset{c};
      released := released + multiset{c};
      Release(signalled);
    }
  }
}
