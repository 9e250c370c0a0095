/**
 When a run of single loads and stores is a run of whole calls, ticks and replies: no thread may store to the
 unit while another is between its first access to the unit and its last.
 */
module SerialRuns {
  import opened Common
  import opened Wire
  import opened StorageUnits
  import opened Completions
  import opened FineSteps

  datatype Thread = Nobody | TheUser | TheTick | TheEvent

  function ThreadOf(s: FineStep): (t: Thread)
    ensures t != Nobody
  {
    match s
    case UserCalls(_) => TheUser
    case UserGoesOn => TheUser
    case TickBegins(_) => TheTick
    case TickGoesOn => TheTick
    case ReplyComes(_) => TheEvent
    case EventGoesOn => TheEvent
  }

  /** The thread is somewhere between its first access to the unit and its last. */
  predicate Busy(f: Fine, t: Thread) {
    match t
    case Nobody => false
    case TheUser => !f.user.UserIdle?
    case TheTick => !f.tick.TickIdle?
    case TheEvent => !f.event.EventIdle?
  }

  /** The step writes a field of the unit. */
  predicate Stores(f: Fine, s: FineStep) {
    match s
    case UserCalls(call) => f.user.UserIdle? && StoresFirst(call)
    case UserGoesOn => !f.user.UserIdle? && !f.user.UserEntered?
    case TickBegins(_) => false
    case TickGoesOn => f.tick.TickEnding? || f.tick.TickArming? || f.tick.TickArmed? || f.tick.TickConfirming?
    case ReplyComes(_) => false
    case EventGoesOn =>
      f.event.EventStoring? || f.event.EventStoringVersion?
      || (f.event.EventLoaded? && f.event.reply.ReadSuccess? && f.event.op.state == READING)
  }

  predicate Overlap(f: Fine, s: FineStep) {
    Stores(f, s) && exists t :: t != ThreadOf(s) && Busy(f, t)
  }

  ghost predicate Serial(f: Fine, steps: seq<FineStep>) {
    forall i :: 0 <= i < |steps| ==> !Overlap(RunFine(f, steps[..i]), steps[i])
  }

  lemma OnlyStoresStore(f: Fine, s: FineStep)
    requires !Stores(f, s)
    ensures Advance(f, s).unit == f.unit && Advance(f, s).accepted == f.accepted
  {
    hide Truncate, Deadline;
  }

  // ---------------------------------------------------------------- a thread on its own

  /** At most this many steps to the end of what the tick thread is doing. */
  function TickLeft(t: Ticker): nat {
    match t
    case TickIdle => 0
    case TickLoaded(_, _) => 7
    case TickEnding(_, _, _, verdict) => if verdict then 6 else 2
    case TickCalling(_, _, _, verdict) => if verdict then 5 else 1
    case TickTesting(_, _) => 4
    case TickArming(_, _) => 2
    case TickArmed(_) => 1
    case TickFailing(_, _) => 3
    case TickConfirming(_) => 1
  }

  function EventLeft(e: EventThread): nat {
    match e
    case EventIdle => 0
    case EventLoaded(_, _) => 3
    case EventStoringVersion(_) => 2
    case EventStoring(_) => 1
  }

  function UserLeft(u: User): nat {
    match u
    case UserIdle => 0
    case UserEntered(_) => 5
    case UserStoringValue(_) => 4
    case UserStoringTimer(_) => 3
    case UserStoringCallback(_) => 2
    case UserStoringOperation(_) => 1
  }

  lemma {:induction false} TickStops(f: Fine, n: nat)
    requires TickLeft(f.tick) <= n
    ensures TickBy(f, n).tick.TickIdle?
    decreases n
  {
    hide Deadline, Truncate;
    if n > 0 { TickStops(Advance(f, TickGoesOn), n - 1); }
  }

  lemma {:induction false} EventStops(f: Fine, n: nat)
    requires EventLeft(f.event) <= n
    ensures EventBy(f, n).event.EventIdle?
    decreases n
  {
    hide Truncate;
    if n > 0 { EventStops(Advance(f, EventGoesOn), n - 1); }
  }

  lemma {:induction false} UserStops(f: Fine, n: nat)
    requires UserLeft(f.user) <= n
    ensures UserBy(f, n).user.UserIdle?
    decreases n
  {
    if n > 0 { UserStops(Advance(f, UserGoesOn), n - 1); }
  }

  lemma {:induction false} TickLast(f: Fine, n: nat)
    ensures TickBy(f, n + 1) == Advance(TickBy(f, n), TickGoesOn)
    decreases n
  {
    hide Advance;
    if n > 0 { TickLast(Advance(f, TickGoesOn), n - 1); }
  }

  lemma {:induction false} EventLast(f: Fine, n: nat)
    ensures EventBy(f, n + 1) == Advance(EventBy(f, n), EventGoesOn)
    decreases n
  {
    hide Advance;
    if n > 0 { EventLast(Advance(f, EventGoesOn), n - 1); }
  }

  lemma {:induction false} UserLast(f: Fine, n: nat)
    ensures UserBy(f, n + 1) == Advance(UserBy(f, n), UserGoesOn)
    decreases n
  {
    hide Advance;
    if n > 0 { UserLast(Advance(f, UserGoesOn), n - 1); }
  }

  /** Where the thread's current work leads if it goes on alone; one step of its own does not change that. */
  function TickEnd(f: Fine): Fine { TickBy(f, 7) }

  function EventEnd(f: Fine): Fine { EventBy(f, 3) }

  function UserEnd(f: Fine): Fine { UserBy(f, 5) }

  lemma TickGoes(f: Fine)
    ensures TickEnd(Advance(f, TickGoesOn)) == TickEnd(f) && TickEnd(f).tick.TickIdle?
  {
    TickStops(f, 7);
    TickLast(f, 7);
    assert TickBy(f, 7 + 1) == TickBy(Advance(f, TickGoesOn), 7);
  }

  lemma EventGoes(f: Fine)
    ensures EventEnd(Advance(f, EventGoesOn)) == EventEnd(f) && EventEnd(f).event.EventIdle?
  {
    EventStops(f, 3);
    EventLast(f, 3);
    assert EventBy(f, 3 + 1) == EventBy(Advance(f, EventGoesOn), 3);
  }

  lemma UserGoes(f: Fine)
    ensures UserEnd(Advance(f, UserGoesOn)) == UserEnd(f) && UserEnd(f).user.UserIdle?
  {
    UserStops(f, 5);
    UserLast(f, 5);
    assert UserBy(f, 5 + 1) == UserBy(Advance(f, UserGoesOn), 5);
  }

  lemma {:induction false} EventRests(f: Fine, n: nat)
    requires f.event.EventIdle?
    ensures EventBy(f, n) == f
  {
    if n > 0 { EventRests(f, n - 1); }
  }

  lemma {:induction false} UserRests(f: Fine, n: nat)
    requires f.user.UserIdle?
    ensures UserBy(f, n) == f
  {
    if n > 0 { UserRests(f, n - 1); }
  }

  // What a thread does depends only on its own fields.

  lemma {:induction false} TickFrame(f: Fine, g: Fine, n: nat)
    requires f.unit == g.unit && f.tick == g.tick && f.log == g.log
    ensures TickBy(f, n).unit == TickBy(g, n).unit && TickBy(f, n).log == TickBy(g, n).log
    decreases n
  {
    hide Deadline, Truncate, Tell;
    if n > 0 { TickFrame(Advance(f, TickGoesOn), Advance(g, TickGoesOn), n - 1); }
  }

  lemma {:induction false} EventFrame(f: Fine, g: Fine, n: nat)
    requires f.unit == g.unit && f.event == g.event
    ensures EventBy(f, n).unit == EventBy(g, n).unit
    decreases n
  {
    hide Truncate;
    if n > 0 { EventFrame(Advance(f, EventGoesOn), Advance(g, EventGoesOn), n - 1); }
  }

  lemma {:induction false} UserFrame(f: Fine, g: Fine, n: nat)
    requires f.unit == g.unit && f.user == g.user && f.accepted == g.accepted
    ensures UserBy(f, n).unit == UserBy(g, n).unit && UserBy(f, n).accepted == UserBy(g, n).accepted
    decreases n
  {
    if n > 0 { UserFrame(Advance(f, UserGoesOn), Advance(g, UserGoesOn), n - 1); }
  }

  // ---------------------------------------------------------------- a call shows only when it is whole

  /** Since `start` the other threads have done nothing, and the call is under way to `end` or has come to it. */
  predicate Hidden(f: Fine, start: Fine, end: Fine) {
    && f.tick.TickIdle? && f.event.EventIdle? && f.log == start.log
    && UserEnd(f).unit == end.unit && UserEnd(f).accepted == end.accepted
    && (f.user.UserIdle? || (Idle(f.unit) && f.accepted == start.accepted))
  }

  lemma StaysHidden(f: Fine, s: FineStep, start: Fine, end: Fine)
    requires Hidden(f, start, end) && !f.user.UserIdle?
    ensures Hidden(Advance(f, s), start, end)
  {
    if s.UserGoesOn? {
      UserGoes(f);
      hide UserEnd;
    } else {
      assert Advance(f, s) == f;
      hide UserEnd;
    }
  }

  lemma {:induction false} CallHidden(f: Fine, steps: seq<FineStep>, start: Fine, end: Fine)
    requires Hidden(f, start, end)
    requires forall i :: 0 <= i < |steps| ==> !RunFine(f, steps[..i]).user.UserIdle?
    ensures Hidden(RunFine(f, steps), start, end)
  {
    hide Hidden, Advance;
    if steps != [] {
      var n := |steps| - 1;
      forall i | 0 <= i < n
        ensures steps[..n][..i] == steps[..i]
      {
      }
      CallHidden(f, steps[..n], start, end);
      StaysHidden(RunFine(f, steps[..n]), steps[n], start, end);
    }
  }

  /**
   A call on an idle unit, with the other threads at rest, stores the operation word last. However the tick and the
   event thread run in between, they find the unit idle and do nothing, so the unit ends as if the call were alone.
   */
  lemma CallShowsWhole(f: Fine, call: Call, steps: seq<FineStep>)
    requires AtRest(f) && Idle(f.unit)
    requires forall i :: 0 <= i < |steps| ==> !RunFine(Advance(f, UserCalls(call)), steps[..i]).user.UserIdle?
    ensures var t := RunFine(Advance(f, UserCalls(call)), steps);
      && t.tick.TickIdle? && t.event.EventIdle? && t.log == f.log
      && (!t.user.UserIdle? ==> Idle(t.unit) && t.accepted == f.accepted)
      && (t.user.UserIdle? ==>
            && t.unit == Called(f.unit, f.accepted, call) && t.accepted == AcceptedBy(f.unit, f.accepted, call))
  {
    var g := Advance(f, UserCalls(call));
    UninterruptedCall(f, call);
    CallEnters(f, call);
    hide Advance, UserBy, Called;
    CallHidden(g, steps, f, UserBy(g, 5));
    var t := RunFine(g, steps);
    if t.user.UserIdle? { UserRests(t, 5); }
  }

  lemma CallEnters(f: Fine, call: Call)
    requires AtRest(f) && Idle(f.unit)
    ensures var g := Advance(f, UserCalls(call));
      g.tick == f.tick && g.event == f.event && g.log == f.log && Idle(g.unit) && g.accepted == f.accepted
  {
  }

  // ---------------------------------------------------------------- the coarse run beside it

  /** The fine state as a system of one unit, its threads left out. */
  function Coarse(f: Fine): System {
    System([f.unit], map[f.unit.info.key := 0], f.accepted, f.log)
  }

  predicate Single(c: System) {
    |c.units| == 1 && c.index == map[c.units[0].info.key := 0]
  }

  /** What the threads have begun last. */
  datatype Work = Work(call: Call, now: int, reply: Reply)

  function CallEvent(call: Call): Event {
    match call
    case ReadCall(timeout, true) => CallRead(0, timeout)
    case ReadCall(timeout, false) => CallReadUnchecked(0, timeout)
    case WriteCall(data, timeout, true) => CallWrite(0, data, timeout)
    case WriteCall(data, timeout, false) => CallWriteUnchecked(0, data, timeout)
  }

  function EventOf(w: Work, t: Thread): Event
    requires t != Nobody
  {
    match t
    case TheUser => CallEvent(w.call)
    case TheTick => TickUnit(0, w.now)
    case TheEvent => Deliver(w.reply)
  }

  /** Alone, the thread would now take the unit and the log to where its coarse event takes `c`. */
  predicate Ahead(f: Fine, c: System, w: Work, t: Thread)
    requires Single(c)
  {
    var u := c.units[0];
    match t
    case Nobody => true
    case TheUser =>
      && UserEnd(f).unit == Called(u, c.accepted, w.call) && UserEnd(f).accepted == AcceptedBy(u, c.accepted, w.call)
      && f.log == c.log
    case TheTick =>
      && TickEnd(f).unit == Tick(u, w.now).unit && TickEnd(f).log == c.log + Callbacks(u, w.now)
      && f.accepted == c.accepted
    case TheEvent =>
      && Addressed(w.reply) && w.reply.key == u.info.key
      && EventEnd(f).unit == OnReply(u, w.reply)
      && f.log == c.log && f.accepted == c.accepted
  }

  /** A thread that has arrived has taken its coarse step. */
  lemma Arrived(f: Fine, c: System, w: Work, t: Thread)
    requires Single(c) && t != Nobody && !Busy(f, t) && Ahead(f, c, w, t)
    ensures Coarse(f) == Step(c, EventOf(w, t))
  {
    match t
    case TheUser => UserRests(f, 5); UserArrived(f, c, w.call);
    case TheTick => TickRests(f, 7); TickKeepsInfo(c.units[0], w.now); hide Tick, Callbacks;
    case TheEvent => EventRests(f, 3); ReplyKeepsInfo(c.units[0], w.reply); hide OnReply;
  }

  lemma UserArrived(f: Fine, c: System, call: Call)
    requires Single(c)
    requires f.unit == Called(c.units[0], c.accepted, call) && f.accepted == AcceptedBy(c.units[0], c.accepted, call)
    requires f.log == c.log
    ensures Coarse(f) == Step(c, CallEvent(call))
  {
  }

  lemma TickKeepsInfo(u: StorageUnit, now: int)
    ensures Tick(u, now).unit.info == u.info
  {
  }

  lemma ReplyKeepsInfo(u: StorageUnit, r: Reply)
    ensures OnReply(u, r).info == u.info
  {
  }

  function Note(f: Fine, w: Work, s: FineStep): Work {
    match s
    case UserCalls(call) => if f.user.UserIdle? then w.(call := call) else w
    case TickBegins(now) => if f.tick.TickIdle? then w.(now := now) else w
    case ReplyComes(r) =>
      if f.event.EventIdle? && Addressed(r) && r.key == f.unit.info.key then w.(reply := r) else w
    case _ => w
  }

  /**
   The coarse events of a run, one for each piece of work that stores to the unit, in the order of the first
   stores; `storing` is the thread that has stored and is not done yet.
   */
  datatype Account = Account(events: seq<Event>, storing: Thread, work: Work)

  predicate Starts(f: Fine, a: Account, s: FineStep) {
    Stores(f, s) && a.storing == Nobody
  }

  /** The thread whose work on the unit this step ends. */
  predicate Finishes(f: Fine, a: Account, s: FineStep) {
    (Starts(f, a, s) || a.storing == ThreadOf(s)) && !Busy(Advance(f, s), ThreadOf(s))
  }

  function Record(f: Fine, a: Account, s: FineStep): Account {
    var w, t := Note(f, a.work, s), ThreadOf(s);
    Account(if Starts(f, a, s) then a.events + [EventOf(w, t)] else a.events,
            if Finishes(f, a, s) then Nobody else if Starts(f, a, s) then t else a.storing,
            w)
  }

  const NOTHING := Account([], Nobody, Work(ReadCall(0, false), 0, WriteSuccess(Key(0, 0))))

  function AccountOf(f: Fine, steps: seq<FineStep>): Account {
    if steps == [] then NOTHING
    else
      var n := |steps| - 1;
      Record(RunFine(f, steps[..n]), AccountOf(f, steps[..n]), steps[n])
  }

  /** The work that has been completed, all of it or all but the piece under way. */
  function Done(a: Account): seq<Event> {
    if a.storing == Nobody || a.events == [] then a.events else a.events[..|a.events| - 1]
  }

  predicate LastIs(es: seq<Event>, e: Event) {
    es != [] && es[|es| - 1] == e
  }

  ghost predicate Consistent(f: Fine, a: Account, c: System) {
    && Single(c)
    && (a.storing == Nobody ==> Coarse(f) == c)
    && (a.storing != Nobody ==>
          && LastIs(a.events, EventOf(a.work, a.storing))
          && Busy(f, a.storing) && Ahead(f, c, a.work, a.storing))
    && (forall t :: t != a.storing && Busy(f, t) ==> Ahead(f, Coarse(f), a.work, t))
    && (f.tick.TickCalling? ==> a.storing == TheTick)
  }

  // ---------------------------------------------------------------- one step

  lemma OwnStep(f: Fine, s: FineStep, c: System, w: Work)
    requires Single(c) && Busy(f, ThreadOf(s)) && Ahead(f, c, w, ThreadOf(s))
    ensures Note(f, w, s) == w && Ahead(Advance(f, s), c, w, ThreadOf(s))
  {
    hide UserEnd, TickEnd, EventEnd, Called, Tick, OnReply, Callbacks, Truncate, Deadline;
    match s
    case UserGoesOn => UserGoes(f);
    case TickGoesOn => TickGoes(f);
    case EventGoesOn => EventGoes(f);
    case _ =>
  }

  lemma FirstStep(f: Fine, s: FineStep, w: Work)
    requires !Busy(f, ThreadOf(s))
    ensures Ahead(Advance(f, s), Coarse(f), Note(f, w, s), ThreadOf(s))
         || (Advance(f, s) == f && Note(f, w, s) == w && !Stores(f, s))
  {
    match s
    case UserCalls(call) => UninterruptedCall(f, call); hide Called, AcceptedBy, UserBy;
    case TickBegins(now) => UninterruptedTick(f, now); hide Tick, Callbacks, TickBy;
    case ReplyComes(r) =>
      if r.key == f.unit.info.key {
        UninterruptedReply(f, r);
        hide OnReply, EventBy;
      }
    case _ =>
  }

  /** A step of one thread leaves the others where they are, unless it changes what they look at. */
  lemma OtherStep(f: Fine, s: FineStep, c: System, d: System, w: Work, t: Thread)
    requires Single(c) && Single(d) && c.units == d.units && t != ThreadOf(s) && Ahead(f, c, w, t)
    requires var f' := Advance(f, s);
      && f'.unit == f.unit && f'.accepted == f.accepted && d.accepted == c.accepted
      && (t == TheTick ==> f'.log == f.log && d.log == c.log)
      && (t != TheTick && f.log == c.log ==> f'.log == d.log)
    requires Busy(f, t)
    ensures Busy(Advance(f, s), t) && Ahead(Advance(f, s), d, Note(f, w, s), t)
  {
    var f' := Advance(f, s);
    ControlStays(f, s, w, t);
    match t
    case TheUser => UserFrame(f, f', 5); hide UserBy, Called, AcceptedBy, Advance;
    case TheTick => TickFrame(f, f', 7); hide TickBy, Tick, Callbacks, Advance;
    case TheEvent => EventFrame(f, f', 3); hide EventBy, OnReply, Advance;
    case Nobody =>
  }

  lemma ControlStays(f: Fine, s: FineStep, w: Work, t: Thread)
    requires t != ThreadOf(s)
    ensures var f', w' := Advance(f, s), Note(f, w, s);
      && Busy(f', t) == Busy(f, t)
      && (t == TheUser ==> f'.user == f.user && w'.call == w.call)
      && (t == TheTick ==> f'.tick == f.tick && w'.now == w.now && f'.log == f.log)
      && (t == TheEvent ==> f'.event == f.event && w'.reply == w.reply)
  {
    hide Truncate, Deadline;
  }

  /** Only the last part of a tick makes callbacks. */
  lemma WhoLogs(f: Fine, s: FineStep)
    ensures !(s == TickGoesOn && f.tick.TickCalling?) ==> Advance(f, s).log == f.log
    ensures s != TickGoesOn ==> !(Advance(f, s).tick.TickCalling? && !f.tick.TickCalling?)
    ensures Advance(f, s).tick.TickCalling? ==> f.tick.TickCalling? || f.tick.TickEnding?
    ensures s == TickGoesOn && Advance(f, s).tick.TickCalling? ==> Stores(f, s)
  {
    hide Truncate, Deadline;
  }

  /** The next state of the coarse system. */
  function Next(f: Fine, a: Account, c: System, s: FineStep): System {
    if Finishes(f, a, s) then Step(c, EventOf(Note(f, a.work, s), ThreadOf(s))) else c
  }

  /** A step of a thread that has not stored yet, and does not store now. */
  lemma LookingStep(f: Fine, a: Account, c: System, s: FineStep)
    requires Consistent(f, a, c) && !Stores(f, s) && a.storing != ThreadOf(s)
    ensures Consistent(Advance(f, s), Record(f, a, s), c) && !Finishes(f, a, s)
  {
    var f', t := Advance(f, s), ThreadOf(s);
    OnlyStoresStore(f, s);
    WhoLogs(f, s);
    hide Advance, Stores, Ahead;
    assert f'.log == f.log;
    if Busy(f, t) { OwnStep(f, s, Coarse(f), a.work); } else { FirstStep(f, s, a.work); }
    forall x | x != t && Busy(f, x)
      ensures Busy(f', x) && Ahead(f', if x == a.storing then c else Coarse(f'), Note(f, a.work, s), x)
    {
      OtherStep(f, s, if x == a.storing then c else Coarse(f), if x == a.storing then c else Coarse(f'), a.work, x);
    }
    forall x | x != t
      ensures Busy(f', x) == Busy(f, x)
    {
      ControlStays(f, s, a.work, x);
    }
    if a.storing != Nobody { SameEvent(f, a.work, s, a.storing); }
  }

  lemma SameEvent(f: Fine, w: Work, s: FineStep, t: Thread)
    requires t != Nobody && t != ThreadOf(s)
    ensures EventOf(Note(f, w, s), t) == EventOf(w, t)
  {
  }

  /** The thread at work on the unit stays ahead of its coarse step. */
  lemma WorkerAhead(f: Fine, a: Account, c: System, s: FineStep)
    requires Consistent(f, a, c) && (Starts(f, a, s) || a.storing == ThreadOf(s))
    ensures Ahead(Advance(f, s), c, Note(f, a.work, s), ThreadOf(s))
    ensures a.storing == ThreadOf(s) ==> Note(f, a.work, s) == a.work
  {
    hide Advance, Stores, Ahead;
    if Busy(f, ThreadOf(s)) { OwnStep(f, s, c, a.work); } else { FirstStep(f, s, a.work); }
  }

  /** What it does leaves those that are only looking as they were; where it stores there are none. */
  lemma LookersStay(f: Fine, a: Account, c: System, s: FineStep, x: Thread)
    requires Consistent(f, a, c) && (Starts(f, a, s) || a.storing == ThreadOf(s)) && !Overlap(f, s)
    requires x != ThreadOf(s) && Busy(Advance(f, s), x)
    ensures Ahead(Advance(f, s), Coarse(Advance(f, s)), Note(f, a.work, s), x)
  {
    ControlStays(f, s, a.work, x);
    if !Stores(f, s) { OnlyStoresStore(f, s); }
    hide Advance, Stores, Ahead;
    OtherStep(f, s, Coarse(f), Coarse(Advance(f, s)), a.work, x);
  }

  /** A step of the thread at work on the unit, or of one that now begins to be. */
  lemma WorkingStep(f: Fine, a: Account, c: System, s: FineStep)
    requires Consistent(f, a, c) && (Starts(f, a, s) || a.storing == ThreadOf(s)) && !Overlap(f, s)
    ensures Consistent(Advance(f, s), Record(f, a, s), Next(f, a, c, s))
  {
    var f', t, w := Advance(f, s), ThreadOf(s), Note(f, a.work, s);
    WorkerAhead(f, a, c, s);
    WhoLogs(f, s);
    forall x | x != t && Busy(f', x)
      ensures Ahead(f', Coarse(f'), w, x)
    {
      LookersStay(f, a, c, s, x);
    }
    hide Advance, Stores, Ahead, Coarse, Step;
    if !Busy(f', t) {
      Arrived(f', c, w, t);
      CoarseSingle(f');
    }
  }

  lemma CoarseSingle(f: Fine)
    ensures Single(Coarse(f))
  {
  }

  lemma StepConsistent(f: Fine, a: Account, c: System, s: FineStep)
    requires Consistent(f, a, c) && !Overlap(f, s)
    ensures Consistent(Advance(f, s), Record(f, a, s), Next(f, a, c, s))
  {
    if Starts(f, a, s) || a.storing == ThreadOf(s) {
      WorkingStep(f, a, c, s);
    } else {
      NoOtherStores(f, a, c, s);
      LookingStep(f, a, c, s);
    }
  }

  lemma NoOtherStores(f: Fine, a: Account, c: System, s: FineStep)
    requires Consistent(f, a, c) && !Overlap(f, s) && !Starts(f, a, s) && a.storing != ThreadOf(s)
    ensures !Stores(f, s)
  {
    hide Advance, Ahead;
  }

  lemma NextDone(s0: System, f: Fine, a: Account, s: FineStep)
    requires a.storing != Nobody ==> LastIs(a.events, EventOf(Note(f, a.work, s), a.storing))
    ensures Run(s0, Done(Record(f, a, s))) == Next(f, a, Run(s0, Done(a)), s)
  {
    hide Step, Advance, Stores, Note, EventOf, Run;
    var e := EventOf(Note(f, a.work, s), ThreadOf(s));
    if Finishes(f, a, s) {
      RunMore(s0, Done(a), e);
      assert a.storing != Nobody ==> a.events == Done(a) + [e];
    } else if Starts(f, a, s) {
      assert (a.events + [e])[..|a.events|] == a.events;
    }
  }

  // ---------------------------------------------------------------- theorem

  predicate AllIdle(f: Fine) {
    f.user.UserIdle? && f.tick.TickIdle? && f.event.EventIdle?
  }

  lemma NothingConsistent(f: Fine)
    requires AllIdle(f)
    ensures Consistent(f, NOTHING, Coarse(f))
  {
  }

  lemma SerialPrefix(f: Fine, steps: seq<FineStep>, i: nat)
    requires Serial(f, steps) && i < |steps|
    ensures Serial(f, steps[..i]) && !Overlap(RunFine(f, steps[..i]), steps[i])
  {
    hide RunFine, Overlap;
    forall m | 0 <= m < i
      ensures steps[..i][..m] == steps[..m] && steps[..i][m] == steps[m]
    {
    }
  }

  lemma {:induction false} SerialConsistent(f: Fine, steps: seq<FineStep>)
    requires AllIdle(f) && Serial(f, steps)
    ensures Consistent(RunFine(f, steps), AccountOf(f, steps), Run(Coarse(f), Done(AccountOf(f, steps))))
  {
    hide Advance, Overlap, Consistent, Step, Record, Serial, Done, Next;
    if steps == [] {
      NothingConsistent(f);
      NothingDone();
    } else {
      var n := |steps| - 1;
      SerialPrefix(f, steps, n);
      SerialConsistent(f, steps[..n]);
      var g, a := RunFine(f, steps[..n]), AccountOf(f, steps[..n]);
      StepConsistent(g, a, Run(Coarse(f), Done(a)), steps[n]);
      StoringEvent(g, a, Run(Coarse(f), Done(a)), steps[n]);
      NextDone(Coarse(f), g, a, steps[n]);
    }
  }

  lemma NothingDone()
    ensures Done(NOTHING) == []
  {
  }

  lemma StoringEvent(f: Fine, a: Account, c: System, s: FineStep)
    requires Consistent(f, a, c)
    ensures a.storing != Nobody ==> LastIs(a.events, EventOf(Note(f, a.work, s), a.storing))
  {
    hide Ahead, Advance;
    if a.storing == ThreadOf(s) {
      OwnStep(f, s, c, a.work);
    } else if a.storing != Nobody {
      SameEvent(f, a.work, s, a.storing);
    }
  }

  lemma {:induction false} TickLogs(f: Fine, n: nat)
    ensures f.log <= TickBy(f, n).log
    decreases n
  {
    hide Deadline, Truncate;
    if n > 0 { TickLogs(Advance(f, TickGoesOn), n - 1); }
  }

  lemma AheadLogs(f: Fine, c: System, w: Work, t: Thread)
    requires Single(c) && t != Nobody && Ahead(f, c, w, t)
    ensures f.log <= Step(c, EventOf(w, t)).log
  {
    if t == TheTick { TickLogs(f, 7); }
    hide TickBy, Tick, Callbacks, Called, OnReply;
  }

  /**
   A run on which no thread stores to the unit while another is in the middle of its work there is a run of
   whole events, in the order of their first stores. Between two pieces of work the unit, the log and the
   numbering are those of that run; within one, the log has not yet got ahead of it.
   */
  lemma SerialRunIsCoarse(f: Fine, steps: seq<FineStep>)
    requires AllIdle(f) && Serial(f, steps)
    ensures var g, a := RunFine(f, steps), AccountOf(f, steps);
      var t := Run(Coarse(f), a.events);
      && (AllIdle(g) ==> a.storing == Nobody)
      && (a.storing == Nobody ==> Coarse(g) == t)
      && g.log <= t.log
  {
    SerialConsistent(f, steps);
    hide RunFine, AccountOf, Run, Consistent, AllIdle, Done;
    ConsistentEnd(Coarse(f), RunFine(f, steps), AccountOf(f, steps));
  }

  lemma ConsistentEnd(s0: System, g: Fine, a: Account)
    requires Consistent(g, a, Run(s0, Done(a)))
    ensures AllIdle(g) ==> a.storing == Nobody
    ensures a.storing == Nobody ==> Coarse(g) == Run(s0, a.events)
    ensures g.log <= Run(s0, a.events).log
  {
    var c := Run(s0, Done(a));
    hide Run, Ahead, Step, EventOf;
    if a.storing != Nobody {
      var e := EventOf(a.work, a.storing);
      AheadLogs(g, c, a.work, a.storing);
      RunMore(s0, Done(a), e);
      assert a.events == Done(a) + [e];
    }
  }

  /** On such a run the law of the coarse completion log holds after every step. */
  lemma SerialVerdicts(u: StorageUnit, steps: seq<FineStep>, k: nat)
    requires Idle(u) && u.callback.None? && Serial(Resting(u, 0), steps)
    ensures Lawful(Verdicts(RunFine(Resting(u, 0), steps).log, k))
    ensures Verdicts(RunFine(Resting(u, 0), steps).log, k)
         <= Verdicts(Run(OneUnit(u), AccountOf(Resting(u, 0), steps).events).log, k)
  {
    var f := Resting(u, 0);
    assert Coarse(f) == OneUnit(u);
    SerialRunIsCoarse(f, steps);
    CompletionLog(OneUnit(u), AccountOf(f, steps).events, k);
    var log, full := RunFine(f, steps).log, Run(OneUnit(u), AccountOf(f, steps).events).log;
    hide RunFine, AccountOf, Run, Serial, Verdicts, EndsBy, Pending;
    assert full == log + full[|log|..];
    VerdictsAppend(log, full[|log|..], k);
    LawfulPrefix(Verdicts(log, k), Verdicts(full[|log|..], k));
  }

  lemma LawfulPrefix(a: seq<bool>, b: seq<bool>)
    requires Lawful(a + b)
    ensures Lawful(a)
  {
    assert a == (a + b)[..|a|];
    if |a| == 2 { assert a == a + b; }
    if |a| == 1 { assert a == [(a + b)[0]]; }
  }

  // ---------------------------------------------------------------- what happens otherwise

  lemma OneMore(f: Fine, steps: seq<FineStep>, s: FineStep)
    ensures RunFine(f, steps + [s]) == Advance(RunFine(f, steps), s)
    ensures Serial(f, steps) && !Overlap(RunFine(f, steps), s) ==> Serial(f, steps + [s])
  {
    hide Overlap, Advance;
    var more := steps + [s];
    assert more[..|steps|] == steps;
    if Serial(f, steps) && !Overlap(RunFine(f, steps), s) {
      forall i | 0 <= i < |more|
        ensures !Overlap(RunFine(f, more[..i]), more[i])
      {
        if i < |steps| { assert more[..i] == steps[..i] && !Overlap(RunFine(f, steps[..i]), steps[i]); }
      }
    }
  }

  /** Starting from a run that keeps the guard, three steps that keep it. */
  lemma ThreeLooks(f: Fine, steps: seq<FineStep>, s: FineStep)
    requires Serial(f, steps)
    requires var g := RunFine(f, steps);
      !Overlap(g, s) && !Overlap(Advance(g, s), s) && !Overlap(Advance(Advance(g, s), s), s)
    ensures Serial(f, steps + [s, s, s])
    ensures RunFine(f, steps + [s, s, s]) == Advance(Advance(Advance(RunFine(f, steps), s), s), s)
  {
    hide Overlap, Advance, Serial, RunFine;
    var one, two := steps + [s], steps + [s, s];
    assert two == one + [s] && steps + [s, s, s] == two + [s];
    OneMore(f, steps, s);
    OneMore(f, one, s);
    OneMore(f, two, s);
  }

  lemma TwoBegin(f: Fine, a: FineStep, b: FineStep)
    requires !Stores(f, a) && !Overlap(Advance(f, a), b)
    ensures Serial(f, [a, b]) && RunFine(f, [a, b]) == Advance(Advance(f, a), b)
  {
    hide Advance, Stores;
    assert RunFine(f, []) == f && [] + [a] == [a] && [a] + [b] == [a, b];
    OneMore(f, [], a);
    OneMore(f, [a], b);
  }

  /**
   Any reply to a read that is loaded before a tick times the read out, and stored after it, brings the read
   back: its callback is told failure and, at the next tick, success. The run keeps the guard up to the store of
   the timeout, which falls into the reply's work.
   */
  lemma LateStoreResurrects(u: StorageUnit, k: nat, r: Reply, now: int, later: int, n: nat)
    requires Holds(u, k) && !Masked(u) && u.operation == Operation(READ, READING) && now >= u.timer
    requires r.ReadSuccess? && r.key == u.info.key
    ensures var f, before := Resting(u, n), [ReplyComes(r), TickBegins(now)] + [TickGoesOn, TickGoesOn, TickGoesOn];
      && Serial(f, before) && Overlap(RunFine(f, before), TickGoesOn)
      && TickBy(Advance(EventEnd(TickBy(RunFine(f, before), 2)), TickBegins(later)), 3).log
      == [Completion(k, false), Completion(k, true)]
  {
    var f := Resting(u, n);
    var loaded := Advance(Advance(f, ReplyComes(r)), TickBegins(now));
    TwoBegin(f, ReplyComes(r), TickBegins(now));
    assert loaded.tick == TickLoaded(u.operation, now) && loaded.event == EventLoaded(u.operation, r);
    ThreeLooks(f, [ReplyComes(r), TickBegins(now)], TickGoesOn);
    hide RunFine, Serial;
    var ending := f.(tick := TickEnding(u.operation, now, Some(k), false), event := loaded.event);
    assert Advance(Advance(Advance(loaded, TickGoesOn), TickGoesOn), TickGoesOn) == ending;
    assert Busy(ending, TheEvent);
    LateStore(f, ending, u, k, r, now, later);
  }

  lemma LateStore(f: Fine, ending: Fine, u: StorageUnit, k: nat, r: Reply, now: int, later: int)
    requires Holds(u, k) && !Masked(u) && u.operation == Operation(READ, READING) && r.ReadSuccess?
    requires f.log == [] && f.unit == u
    requires ending == f.(tick := TickEnding(u.operation, now, Some(k), false), event := EventLoaded(u.operation, r))
    ensures TickBy(Advance(EventEnd(TickBy(ending, 2)), TickBegins(later)), 3).log
         == [Completion(k, false), Completion(k, true)]
  {
    var expired := TickBy(ending, 2);
    assert expired.log == [Completion(k, false)] && expired.tick == TickIdle;
    assert expired.event == EventLoaded(Operation(READ, READING), r)
      && expired.unit == u.(operation := Operation(NONE, READING));
    var stored := EventEnd(expired);
    assert stored == Advance(Advance(Advance(expired, EventGoesOn), EventGoesOn), EventGoesOn);
    assert stored.unit.operation == Operation(READ, SUCCESS) && stored.log == expired.log && stored.tick == TickIdle;
    hide EventBy;
    var told := TickBy(Advance(stored, TickBegins(later)), 3);
    assert told.log == [Completion(k, false)] + [Completion(k, true)];
  }

  /**
   The deadline test behind any success reads the timeout union again. A checked read started in between is
   failed by that very tick exactly when its raw timeout is not above the clock. The guard holds up to the call's
   first store, which falls into the tick's work.
   */
  lemma SuccessFailsTheNext(u: StorageUnit, k: nat, now: int, timeout: int, n: nat)
    requires Holds(u, k) && Succeeds(u)
    ensures var f, call := Resting(u, n), ReadCall(timeout, true);
      var before := [TickBegins(now)] + [TickGoesOn, TickGoesOn, TickGoesOn] + [UserCalls(call)];
      && Serial(f, before) && Overlap(RunFine(f, before), UserGoesOn)
      && TickEnd(UserEnd(RunFine(f, before))).log
      == [Completion(k, true)] + if now >= timeout then [Completion(n, false)] else []
  {
    hide RunFine, Serial, Advance, Overlap, UserBy, TickBy;
    var f, call, go := Resting(u, n), ReadCall(timeout, true), TickGoesOn;
    var loaded := Advance(f, TickBegins(now));
    SuccessTold(f, u, k, now, call);
    NoSteps(f);
    OneMore(f, [], TickBegins(now));
    assert [] + [TickBegins(now)] == [TickBegins(now)];
    ThreeLooks(f, [TickBegins(now)], go);
    OneMore(f, [TickBegins(now)] + [go, go, go], UserCalls(call));
    NewCallTested(Advance(Advance(Advance(Advance(loaded, go), go), go), UserCalls(call)), u, k, now, timeout, n);
  }

  lemma NoSteps(f: Fine)
    ensures RunFine(f, []) == f && Serial(f, [])
  {
  }

  /** The tick up to its deadline test, then the call up to its first store: nothing overlaps yet. */
  lemma SuccessTold(f: Fine, u: StorageUnit, k: nat, now: int, call: Call)
    requires Holds(u, k) && Succeeds(u) && f == Resting(u, f.accepted) && call.ReadCall?
    ensures var g, go := Advance(f, TickBegins(now)), TickGoesOn;
      var told := Advance(Advance(Advance(g, go), go), go);
      var begun := Advance(told, UserCalls(call));
      && !Overlap(f, TickBegins(now)) && !Overlap(g, go) && !Overlap(Advance(g, go), go)
      && !Overlap(Advance(Advance(g, go), go), go) && !Overlap(told, UserCalls(call))
      && begun.accepted == f.accepted && begun.log == [Completion(k, true)] && Idle(begun.unit)
      && begun.user == UserStoringTimer(call) && begun.tick == TickTesting(IDLE, now)
      && Overlap(begun, UserGoesOn)
  {
    var told := f.(unit := u.(operation := IDLE), tick := TickTesting(IDLE, now), log := Tell([], Some(k), true));
    var g := Advance(f, TickBegins(now));
    assert Advance(Advance(Advance(g, TickGoesOn), TickGoesOn), TickGoesOn) == told;
    assert Busy(Advance(told, UserCalls(call)), TheTick);
  }

  lemma NewCallTested(begun: Fine, u: StorageUnit, k: nat, now: int, timeout: int, n: nat)
    requires begun.accepted == n && begun.log == [Completion(k, true)] && Idle(begun.unit)
    requires begun.user == UserStoringTimer(ReadCall(timeout, true)) && begun.tick == TickTesting(IDLE, now)
    ensures TickEnd(UserEnd(begun)).log == [Completion(k, true)] + if now >= timeout then [Completion(n, false)] else []
  {
    var started := Advance(Advance(Advance(begun, UserGoesOn), UserGoesOn), UserGoesOn);
    assert started.unit.timer == timeout && started.unit.callback == Some(n) && started.user.UserIdle?;
    UserGoes(begun);
    UserGoes(Advance(begun, UserGoesOn));
    UserGoes(Advance(Advance(begun, UserGoesOn), UserGoesOn));
    UserRests(started, 5);
    assert started.tick == begun.tick && started.log == begun.log;
    hide UserBy, Advance;
    Tested(started, now, timeout, n);
  }

  lemma Tested(f: Fine, now: int, timeout: int, n: nat)
    requires f.tick == TickTesting(IDLE, now) && f.unit.timer == timeout && f.unit.callback == Some(n)
    ensures TickEnd(f).log == f.log + if now >= timeout then [Completion(n, false)] else []
  {
    if now >= timeout {
      TickSplit(f, 4, 3);
      TickRests(TickBy(f, 4), 3);
    } else {
      TickSplit(f, 1, 6);
      TickRests(TickBy(f, 1), 6);
    }
  }
}
