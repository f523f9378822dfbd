/** The numbered hooks that two threads of tools/load_session_generator.py post to one daemon session, and the
    ingress that orders them by source (src/swe_mux/routes/agent_ingress.py). */
module LoadSession {
  import opened Outcomes

  // ------------------------------------------------------------------ the ingress

  datatype Message = Message(source: string, sequence: nat)

  /** The ingress keeps 64 characters of a source's name. */
  function Key(source: string): string {
    if |source| <= 64 then source else source[..64]
  }

  /** It tells two names apart unless they are one or share those 64. */
  lemma {:induction false} SharesKeyIff(a: string, b: string)
    ensures Key(a) == Key(b) <==> a == b || (|a| >= 64 && |b| >= 64 && a[..64] == b[..64])
  {
    assert |a| == 64 ==> a[..64] == a;
    assert |b| == 64 ==> b[..64] == b;
  }

  /** What the ingress raises on: a hook without a source, or numbered below 1. */
  predicate Refused(m: Message) {
    m.source == [] || m.sequence == 0
  }

  /** A number at or below the last one seen from its source is stale. */
  predicate Stale(seen: map<string, nat>, m: Message) {
    Key(m.source) in seen && m.sequence <= seen[Key(m.source)]
  }

  datatype Ledger = Ledger(seen: map<string, nat>, processed: seq<Message>, dropped: seq<Message>)

  function Received(l: Ledger, m: Message): Ledger {
    if Refused(m) then l
    else if Stale(l.seen, m) then l.(dropped := l.dropped + [m])
    else l.(seen := l.seen[Key(m.source) := m.sequence], processed := l.processed + [m])
  }

  /** A session's sequence state; what was processed and what was dropped is kept for the specification. */
  class Ingress {
    var hookSequences: map<string, nat>
    ghost var processed: seq<Message>
    ghost var dropped: seq<Message>

    ghost function View(): Ledger
      reads this
    {
      Ledger(hookSequences, processed, dropped)
    }

    constructor ()
      ensures View() == Ledger(map[], [], [])
    {
      hookSequences, processed, dropped := map[], [], [];
    }

    /** Whether a hook is accepted; one without a source, or numbered below 1, is refused with an error. */
    method Ingest(source: string, sequence: int) returns (accepted: Result<bool, string>)
      modifies this
      ensures accepted.Err? <==> source == [] || sequence < 1
      ensures accepted.Err? ==> View() == old(View())
      ensures accepted.Ok? ==>
                && accepted.value == !Stale(old(hookSequences), Message(source, sequence))
                && View() == Received(old(View()), Message(source, sequence))
      ensures accepted.Ok? ==>
                var name := if |source| <= 64 then source else source[..64];
                && (accepted.value <==> (name in old(hookSequences) ==> old(hookSequences)[name] < sequence))
                && hookSequences
                   == if accepted.value then old(hookSequences)[name := sequence] else old(hookSequences)
    {
      var name := if |source| <= 64 then source else source[..64];
      if sequence < 1 || name == [] {
        return Err("sequence");
      }
      if name in hookSequences && sequence <= hookSequences[name] {
        dropped := dropped + [Message(source, sequence)];
        return Ok(false);
      }
      hookSequences := hookSequences[name := sequence];
      processed := processed + [Message(source, sequence)];
      return Ok(true);
    }
  }

  // ------------------------------------------------------------------ the two threads

  /** The hook thread; while a post is out, its number is `sequence`. */
  datatype Hook = Hook(sequence: nat, posting: bool)

  datatype Phase = Waiting | Deciding | ToolRunning | Reporting

  /** The decision thread: a request, and after an allowed one the report of the tool it granted. */
  datatype Decider = Decider(sequence: nat, index: nat, phase: Phase)

  /** How a post ends for the thread that made it: the ingress has handled it, or never will, or the thread has
      given up while it is still on its way. */
  datatype Fate = Handled | Lost | TimedOut

  datatype Event =
    | PostHook
    | HookReturns(fate: Fate)
    | PostDecision
    | DecisionReturns(fate: Fate, allowed: bool)
    | ToolFinishes
    | StoppedFirst
    | ReportReturns(fate: Fate)
    | ArrivesLate(which: nat)

  datatype World = World(hookName: string, decisionName: string, hook: Hook, decider: Decider, ledger: Ledger,
                         late: seq<Message>)

  function Start(hookName: string, decisionName: string): World {
    World(hookName, decisionName, Hook(0, false), Decider(0, 0, Waiting), Ledger(map[], [], []), [])
  }

  function HookMessage(w: World): Message {
    Message(w.hookName, w.hook.sequence)
  }

  function DecisionMessage(w: World): Message {
    Message(w.decisionName, w.decider.sequence)
  }

  function Ended(w: World, m: Message, fate: Fate): World {
    match fate
    case Handled => w.(ledger := Received(w.ledger, m))
    case Lost => w
    case TimedOut => w.(late := w.late + [m])
  }

  /** One step of either thread or of the network; an event that cannot happen leaves the world alone. */
  function Step(w: World, e: Event): World {
    match e
    case PostHook =>
      if w.hook.posting then w else w.(hook := Hook(w.hook.sequence + 1, true))
    case HookReturns(fate) =>
      if w.hook.posting then Ended(w, HookMessage(w), fate).(hook := Hook(w.hook.sequence, false)) else w
    case PostDecision =>
      if w.decider.phase.Waiting? then w.(decider := Decider(w.decider.sequence + 1, w.decider.index + 1, Deciding))
      else w
    case DecisionReturns(fate, allowed) =>
      if w.decider.phase.Deciding? then
        var m := DecisionMessage(w);
        var granted := allowed && fate.Handled? && !Refused(m) && !Stale(w.ledger.seen, m);
        Ended(w, DecisionMessage(w), fate)
        .(decider := w.decider.(phase := if granted then ToolRunning else Waiting))
      else w
    case ToolFinishes =>
      if w.decider.phase.ToolRunning? then w.(decider := Decider(w.decider.sequence + 1, w.decider.index, Reporting))
      else w
    case StoppedFirst =>
      if w.decider.phase.ToolRunning? then w.(decider := w.decider.(phase := Waiting)) else w
    case ReportReturns(fate) =>
      if w.decider.phase.Reporting? then
        Ended(w, DecisionMessage(w), fate).(decider := w.decider.(phase := Waiting))
      else w
    case ArrivesLate(which) =>
      if which < |w.late| then
        w.(ledger := Received(w.ledger, w.late[which]), late := w.late[..which] + w.late[which + 1..])
      else w
  }

  function Run(w: World, events: seq<Event>): World
    decreases |events|
  {
    if events == [] then w else Run(Step(w, events[0]), events[1..])
  }

  /** What a thread's post leaves of the world: the ledger, and the message when the thread gave up on it. */
  function Posted(w: World, ledger: Ledger, fate: Fate, m: Message): World {
    w.(ledger := ledger, late := if fate.TimedOut? then w.late + [m] else w.late)
  }

  /** The hook thread's counter. */
  class HookSource {
    var sequence: nat

    constructor ()
      ensures sequence == 0
    {
      sequence := 0;
    }

    /** Numbers a hook, posts it, and waits for what becomes of the post. */
    method Post(ingress: Ingress, name: string, fate: Fate)
      modifies this, ingress
      ensures forall w: World | w.hook == Hook(old(sequence), false) && w.ledger == old(ingress.View())
                                && w.hookName == name
        :: Run(w, [PostHook, HookReturns(fate)])
           == Posted(w, ingress.View(), fate, Message(name, sequence)).(hook := Hook(sequence, false))
      ensures sequence == old(sequence) + 1
      ensures fate != Handled ==> ingress.View() == old(ingress.View())
    {
      sequence := sequence + 1;
      if fate == Handled {
        var _ := ingress.Ingest(name, sequence);
      }
      forall w: World | w.hook == Hook(old(sequence), false) && w.ledger == old(ingress.View()) && w.hookName == name
        ensures Run(w, [PostHook, HookReturns(fate)])
             == Posted(w, ingress.View(), fate, Message(name, sequence)).(hook := Hook(sequence, false))
      {
        RunTwo(w, PostHook, HookReturns(fate));
      }
    }
  }

  /** The decision thread's counters. */
  class DecisionSource {
    var sequence: nat
    var index: nat
    var phase: Phase

    ghost function View(): Decider
      reads this
    {
      Decider(sequence, index, phase)
    }

    constructor ()
      ensures View() == Decider(0, 0, Waiting)
    {
      sequence, index, phase := 0, 0, Waiting;
    }

    /** Numbers a request, posts it, and waits for what becomes of the post. */
    method Decide(ingress: Ingress, name: string, fate: Fate, allowed: bool)
      requires phase == Waiting
      modifies this, ingress
      ensures forall w: World | w.decider == old(View()) && w.ledger == old(ingress.View()) && w.decisionName == name
        :: Run(w, [PostDecision, DecisionReturns(fate, allowed)])
           == Posted(w, ingress.View(), fate, Message(name, sequence)).(decider := View())
      ensures sequence == old(sequence) + 1 && index == old(index) + 1
      ensures fate != Handled ==> ingress.View() == old(ingress.View())
      ensures var key := if |name| <= 64 then name else name[..64];
        phase == if && fate == Handled && allowed && name != []
                    && (key in old(ingress.hookSequences) ==> old(ingress.hookSequences[key]) < sequence)
                 then ToolRunning else Waiting
    {
      sequence, index := sequence + 1, index + 1;
      var accepted: Result<bool, string> := Err("");
      if fate == Handled {
        accepted := ingress.Ingest(name, sequence);
      }
      phase := if accepted == Ok(true) && allowed then ToolRunning else Waiting;
      forall w: World | w.decider == old(View()) && w.ledger == old(ingress.View()) && w.decisionName == name
        ensures Run(w, [PostDecision, DecisionReturns(fate, allowed)])
             == Posted(w, ingress.View(), fate, Message(name, sequence)).(decider := View())
      {
        RunTwo(w, PostDecision, DecisionReturns(fate, allowed));
      }
    }

    /** Reports the tool that was granted. */
    method Report(ingress: Ingress, name: string, fate: Fate)
      requires phase == ToolRunning
      modifies this, ingress
      ensures forall w: World | w.decider == old(View()) && w.ledger == old(ingress.View()) && w.decisionName == name
        :: Run(w, [ToolFinishes, ReportReturns(fate)])
           == Posted(w, ingress.View(), fate, Message(name, sequence)).(decider := View())
      ensures sequence == old(sequence) + 1 && index == old(index) && phase == Waiting
      ensures fate != Handled ==> ingress.View() == old(ingress.View())
    {
      sequence := sequence + 1;
      if fate == Handled {
        var _ := ingress.Ingest(name, sequence);
      }
      phase := Waiting;
      forall w: World | w.decider == old(View()) && w.ledger == old(ingress.View()) && w.decisionName == name
        ensures Run(w, [ToolFinishes, ReportReturns(fate)])
             == Posted(w, ingress.View(), fate, Message(name, sequence)).(decider := View())
      {
        RunTwo(w, ToolFinishes, ReportReturns(fate));
      }
    }
  }

  lemma {:induction false} RunTwo(w: World, a: Event, b: Event)
    ensures Run(w, [a, b]) == Step(Step(w, a), b)
  {
    assert [a, b][1..] == [b] && [b][1..] == [];
    assert Run(Step(w, a), [b]) == Run(Step(Step(w, a), b), []);
  }

  // ------------------------------------------------------------------ what the ingress guarantees in every run

  /** Per source, numbers are processed in strictly increasing order, and none above the last one seen. */
  ghost predicate InOrder(l: Ledger) {
    && (forall m | m in l.processed :: Key(m.source) in l.seen && m.sequence <= l.seen[Key(m.source)])
    && forall i, j | 0 <= i < j < |l.processed| && Key(l.processed[i].source) == Key(l.processed[j].source)
         :: l.processed[i].sequence < l.processed[j].sequence
  }

  lemma {:induction false} ReceivingKeepsOrder(l: Ledger, m: Message)
    requires InOrder(l)
    ensures InOrder(Received(l, m))
  {
    hide Key;
    if !Stale(l.seen, m) {
      var after := Received(l, m);
      assert forall i | 0 <= i < |l.processed| :: l.processed[i] in l.processed;
      assert forall n | n in after.processed :: n in l.processed || n == m;
    }
  }

  lemma {:induction false} StepKeepsOrder(w: World, e: Event)
    requires InOrder(w.ledger)
    ensures InOrder(Step(w, e).ledger)
  {
    hide InOrder, Received;
    ReceivingKeepsOrder(w.ledger, HookMessage(w));
    ReceivingKeepsOrder(w.ledger, DecisionMessage(w));
    if e.ArrivesLate? && e.which < |w.late| {
      ReceivingKeepsOrder(w.ledger, w.late[e.which]);
    }
  }

  lemma {:induction false} RunKeepsOrder(w: World, events: seq<Event>)
    requires InOrder(w.ledger)
    ensures InOrder(Run(w, events).ledger)
    decreases |events|
  {
    hide InOrder, Step;
    if events != [] {
      StepKeepsOrder(w, events[0]);
      RunKeepsOrder(Step(w, events[0]), events[1..]);
    }
  }

  /** Whatever the names, the interleaving, the losses and the late arrivals: no source's number is processed twice
      or out of order. */
  lemma {:induction false} NothingIsProcessedTwice(hookName: string, decisionName: string, events: seq<Event>)
    ensures InOrder(Run(Start(hookName, decisionName), events).ledger)
  {
    RunKeepsOrder(Start(hookName, decisionName), events);
  }

  // ------------------------------------------------------------------ when nothing is dropped

  /** Every post is handled or lost before its thread goes on. */
  predicate Synchronous(events: seq<Event>) {
    forall i | 0 <= i < |events| :: PromptEvent(events[i])
  }

  predicate PromptEvent(e: Event) {
    match e
    case HookReturns(fate) => !fate.TimedOut?
    case DecisionReturns(fate, _) => !fate.TimedOut?
    case ReportReturns(fate) => !fate.TimedOut?
    case _ => true
  }

  predicate SeenBelow(l: Ledger, name: string, bound: int) {
    Key(name) in l.seen ==> l.seen[Key(name)] <= bound
  }

  predicate Abreast(w: World) {
    && Key(w.hookName) != Key(w.decisionName) && w.ledger.dropped == [] && w.late == []
    && (w.hook.posting ==> w.hook.sequence > 0)
    && (w.decider.phase.Deciding? || w.decider.phase.Reporting? ==> w.decider.sequence > 0)
    && SeenBelow(w.ledger, w.hookName, if w.hook.posting then w.hook.sequence - 1 else w.hook.sequence)
    && SeenBelow(w.ledger, w.decisionName,
                 if w.decider.phase.Deciding? || w.decider.phase.Reporting? then w.decider.sequence - 1
                 else w.decider.sequence)
  }

  lemma {:induction false} StepKeepsAbreast(w: World, e: Event)
    requires Abreast(w) && PromptEvent(e)
    ensures Abreast(Step(w, e))
  {
    hide Key;
  }

  lemma {:induction false} RunKeepsAbreast(w: World, events: seq<Event>)
    requires Abreast(w) && Synchronous(events)
    ensures Abreast(Run(w, events))
    decreases |events|
  {
    hide Abreast, Step, PromptEvent;
    if events != [] {
      StepKeepsAbreast(w, events[0]);
      RunKeepsAbreast(Step(w, events[0]), events[1..]);
    }
  }

  /** With names that the ingress tells apart, no interleaving of the two threads has a hook dropped. */
  lemma {:induction false} NothingIsDropped(hookName: string, decisionName: string, events: seq<Event>)
    requires Key(hookName) != Key(decisionName) && Synchronous(events)
    ensures Run(Start(hookName, decisionName), events).ledger.dropped == []
  {
    RunKeepsAbreast(Start(hookName, decisionName), events);
  }

  /** With one name, the first decision after the first hook is dropped, and its tool never runs. */
  lemma {:induction false} SharedNameDrops(hookName: string, decisionName: string)
    requires Key(hookName) == Key(decisionName) && hookName != []
    ensures var events := [PostHook, HookReturns(Handled), PostDecision, DecisionReturns(Handled, true)];
      var w := Run(Start(hookName, decisionName), events);
      Synchronous(events) && w.ledger.dropped == [Message(decisionName, 1)] && w.decider.phase == Waiting
  {
    var w := Start(hookName, decisionName);
    var events := [PostHook, HookReturns(Handled), PostDecision, DecisionReturns(Handled, true)];
    assert events[1..][1..] == [PostDecision, DecisionReturns(Handled, true)];
    var mid := Step(Step(w, events[0]), events[1]);
    assert Run(Step(w, events[0]), events[1..]) == Run(mid, events[1..][1..]);
    RunTwo(mid, PostDecision, DecisionReturns(Handled, true));
  }

  /** Two threads without names: every post is refused. */
  predicate Nameless(w: World) {
    w.hookName == [] && w.decisionName == [] && w.ledger.dropped == []
    && forall i | 0 <= i < |w.late| :: w.late[i].source == []
  }

  lemma {:induction false} NamelessDropNothing(w: World, events: seq<Event>)
    requires Nameless(w)
    ensures Run(w, events).ledger.dropped == []
    decreases |events|
  {
    if events != [] {
      NamelessStep(w, events[0]);
      NamelessDropNothing(Step(w, events[0]), events[1..]);
    }
  }

  lemma {:induction false} NamelessStep(w: World, e: Event)
    requires Nameless(w)
    ensures Nameless(Step(w, e))
  {
  }

  /** The two threads can run side by side without a hook being dropped exactly when the ingress tells their names
      apart; or when neither has one, and every post is refused. */
  lemma {:induction false} NothingIsDroppedIff(hookName: string, decisionName: string)
    ensures (forall events | Synchronous(events) :: Run(Start(hookName, decisionName), events).ledger.dropped == [])
        <==> Key(hookName) != Key(decisionName) || hookName == decisionName == []
  {
    assert Key(hookName) == Key(decisionName) && hookName == [] ==> decisionName == [];
    hide Run, Synchronous, Key;
    if Key(hookName) == Key(decisionName) && hookName != [] {
      SharedNameDrops(hookName, decisionName);
    } else {
      forall events | Synchronous(events)
        ensures Run(Start(hookName, decisionName), events).ledger.dropped == []
      {
        if Key(hookName) == Key(decisionName) {
          NamelessDropNothing(Start(hookName, decisionName), events);
        } else {
          NothingIsDropped(hookName, decisionName, events);
        }
      }
    }
  }

  const HOOK_SOURCE := "load"
  const DECISION_SOURCE := "load-decision"

  lemma {:induction false} GeneratorDropsNothing(events: seq<Event>)
    requires Synchronous(events)
    ensures Run(Start(HOOK_SOURCE, DECISION_SOURCE), events).ledger.dropped == []
  {
    assert |Key(HOOK_SOURCE)| != |Key(DECISION_SOURCE)|;
    NothingIsDropped(HOOK_SOURCE, DECISION_SOURCE, events);
  }

  // ------------------------------------------------------------------ posts that arrive late

  /** A number at or above the message's has been processed from its source. */
  ghost predicate Overtaken(l: Ledger, m: Message) {
    exists p :: p in l.processed && Key(p.source) == Key(m.source) && m.sequence <= p.sequence
  }

  /** What was last seen from a source was processed. */
  ghost predicate SeenWasProcessed(l: Ledger) {
    forall k | k in l.seen :: exists p :: p in l.processed && Key(p.source) == k && p.sequence == l.seen[k]
  }

  lemma {:induction false} ReceivingProcesses(l: Ledger, m: Message)
    requires SeenWasProcessed(l)
    ensures SeenWasProcessed(Received(l, m))
  {
    hide Key;
    var after := Received(l, m);
    if !Refused(m) && !Stale(l.seen, m) {
      assert m in after.processed;
      forall k | k in after.seen
        ensures exists p :: p in after.processed && Key(p.source) == k && p.sequence == after.seen[k]
      {
        if k != Key(m.source) {
          var p :| p in l.processed && Key(p.source) == k && p.sequence == l.seen[k];
          assert p in after.processed;
        }
      }
    }
  }

  lemma {:induction false} StepProcesses(w: World, e: Event)
    requires SeenWasProcessed(w.ledger)
    ensures SeenWasProcessed(Step(w, e).ledger)
  {
    hide SeenWasProcessed, Received;
    ReceivingProcesses(w.ledger, HookMessage(w));
    ReceivingProcesses(w.ledger, DecisionMessage(w));
    if e.ArrivesLate? && e.which < |w.late| {
      ReceivingProcesses(w.ledger, w.late[e.which]);
    }
  }

  /** A message is dropped exactly when it has been overtaken. */
  lemma {:induction false} StaleIffOvertaken(l: Ledger, m: Message)
    requires InOrder(l) && SeenWasProcessed(l)
    ensures Stale(l.seen, m) <==> Overtaken(l, m)
  {
    hide Key;
    if Stale(l.seen, m) {
      var p :| p in l.processed && Key(p.source) == Key(m.source) && p.sequence == l.seen[Key(m.source)];
    }
  }

  /** A message still on its way, from a thread that has gone on: its number is no higher than what the thread has
      finished with. */
  predicate Behind(w: World, m: Message) {
    || (m.source == w.hookName && m.sequence <= if w.hook.posting then w.hook.sequence - 1 else w.hook.sequence)
    || (m.source == w.decisionName
        && m.sequence <= if Sending(w.decider) then w.decider.sequence - 1 else w.decider.sequence)
  }

  predicate Sending(d: Decider) {
    d.phase.Deciding? || d.phase.Reporting?
  }

  /** What holds in every run of two threads that the ingress tells apart, with losses, timeouts and late arrivals. */
  ghost predicate Apart(w: World) {
    && Key(w.hookName) != Key(w.decisionName) && InOrder(w.ledger) && SeenWasProcessed(w.ledger)
    && Bounded(w) && forall i | 0 <= i < |w.late| :: Behind(w, w.late[i])
  }

  /** The ingress has seen no number that a thread has not finished with. */
  predicate Bounded(w: World) {
    && (w.hook.posting ==> w.hook.sequence > 0) && (Sending(w.decider) ==> w.decider.sequence > 0)
    && SeenBelow(w.ledger, w.hookName, if w.hook.posting then w.hook.sequence - 1 else w.hook.sequence)
    && SeenBelow(w.ledger, w.decisionName, if Sending(w.decider) then w.decider.sequence - 1 else w.decider.sequence)
  }

  /** The event delivers a message that the ingress does not refuse, and that has been overtaken. */
  ghost predicate DeliversOvertaken(w: World, e: Event) {
    e.ArrivesLate? && e.which < |w.late| && !Refused(w.late[e.which]) && Overtaken(w.ledger, w.late[e.which])
  }

  lemma {:induction false} StepKeepsApart(w: World, e: Event)
    requires Apart(w)
    ensures Apart(Step(w, e))
  {
    hide InOrder, SeenWasProcessed, Key, Bounded, Behind, Step;
    StepKeepsOrder(w, e);
    StepProcesses(w, e);
    StepKeepsBounds(w, e);
    BoundedThreads(w);
    var next := Step(w, e);
    forall i | 0 <= i < |next.late|
      ensures Behind(next, next.late[i])
    {
      LateStaysBehind(w, e, i);
    }
  }

  lemma {:induction false} BoundedThreads(w: World)
    requires Bounded(w)
    ensures (w.hook.posting ==> w.hook.sequence > 0) && (Sending(w.decider) ==> w.decider.sequence > 0)
  {
  }

  lemma {:induction false} StepKeepsBounds(w: World, e: Event)
    requires Key(w.hookName) != Key(w.decisionName) && Bounded(w)
    requires forall i | 0 <= i < |w.late| :: Behind(w, w.late[i])
    ensures Bounded(Step(w, e))
    ensures Step(w, e).hookName == w.hookName && Step(w, e).decisionName == w.decisionName
  {
    hide Key;
  }

  lemma {:induction false} LateStaysBehind(w: World, e: Event, i: nat)
    requires i < |Step(w, e).late| && forall j | 0 <= j < |w.late| :: Behind(w, w.late[j])
    requires (w.hook.posting ==> w.hook.sequence > 0) && (Sending(w.decider) ==> w.decider.sequence > 0)
    ensures Behind(Step(w, e), Step(w, e).late[i])
  {
    hide Received;
    var next := Step(w, e);
    assert next.late[i] in w.late || next.late[i] == HookMessage(w) || next.late[i] == DecisionMessage(w);
  }

  /** Only a late message that has been overtaken is dropped. */
  lemma {:induction false} StepDrops(w: World, e: Event)
    requires Apart(w)
    ensures Step(w, e).ledger.dropped
         == if DeliversOvertaken(w, e) then w.ledger.dropped + [w.late[e.which]] else w.ledger.dropped
  {
    if e.ArrivesLate? && e.which < |w.late| {
      StaleIffOvertaken(w.ledger, w.late[e.which]);
    }
    hide InOrder, SeenWasProcessed, Overtaken, Key;
  }

  /** No event of the run delivers a message that has been overtaken by then. */
  ghost predicate NoneOvertaken(w: World, events: seq<Event>)
    decreases |events|
  {
    events == [] || (!DeliversOvertaken(w, events[0]) && NoneOvertaken(Step(w, events[0]), events[1..]))
  }

  lemma {:induction false} RunDropsIff(w: World, events: seq<Event>)
    requires Apart(w)
    ensures |Run(w, events).ledger.dropped| >= |w.ledger.dropped|
    ensures |Run(w, events).ledger.dropped| == |w.ledger.dropped| <==> NoneOvertaken(w, events)
    decreases |events|
  {
    hide Apart, Step, DeliversOvertaken;
    if events != [] {
      StepKeepsApart(w, events[0]);
      StepDrops(w, events[0]);
      RunDropsIff(Step(w, events[0]), events[1..]);
    }
  }

  /** With names that the ingress tells apart, in every run, whatever is lost, given up on or late: a hook is dropped
      exactly when it arrives late and a later number of its source has been processed by then. */
  lemma {:induction false} DroppedIffOvertaken(hookName: string, decisionName: string, events: seq<Event>)
    requires Key(hookName) != Key(decisionName)
    ensures Run(Start(hookName, decisionName), events).ledger.dropped == []
        <==> NoneOvertaken(Start(hookName, decisionName), events)
  {
    var w := Start(hookName, decisionName);
    assert Apart(w);
    hide Apart, NoneOvertaken, Key, Run;
    RunDropsIff(w, events);
  }

  /** Such a run: a post that the thread has given up on is overtaken by the next, whatever the names. (One
      without a source is refused.) */
  lemma {:induction false} OvertakenPostIsDropped(hookName: string, decisionName: string)
    requires hookName != []
    ensures var events := [PostHook, HookReturns(TimedOut), PostHook, HookReturns(Handled), ArrivesLate(0)];
      Run(Start(hookName, decisionName), events).ledger.dropped == [Message(hookName, 1)]
  {
    var w := Start(hookName, decisionName);
    var events := [PostHook, HookReturns(TimedOut), PostHook, HookReturns(Handled), ArrivesLate(0)];
    var w1 := Step(Step(w, PostHook), HookReturns(TimedOut));
    var w2 := Step(Step(w1, PostHook), HookReturns(Handled));
    assert events[1..][1..] == [PostHook, HookReturns(Handled), ArrivesLate(0)];
    assert Run(w, events) == Run(Step(w, PostHook), events[1..]) == Run(w1, events[1..][1..]);
    var rest := [PostHook, HookReturns(Handled), ArrivesLate(0)];
    assert rest[1..][1..] == [ArrivesLate(0)] && [ArrivesLate(0)][1..] == [];
    assert Run(w1, rest) == Run(Step(w1, PostHook), rest[1..]) == Run(w2, rest[1..][1..]);
    assert Run(w2, [ArrivesLate(0)]) == Run(Step(w2, ArrivesLate(0)), []);
    assert w1.late == [Message(hookName, 1)];
  }
}
