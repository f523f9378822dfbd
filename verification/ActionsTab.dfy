/** The skills panel of frontend/src/ActionsTab.tsx: requests that may land in any order, and the generation
    counter that lets only the newest one write. */
module ActionsTab {
  import opened Outcomes

  datatype Inventory = Inventory(skills: seq<string>)

  /** What the effect depends on: the focused session, whether its backend is an agent, and its directories. */
  datatype Key = Key(session: Option<string>, agent: bool, runtimeCwd: string, runCwd: string)

  predicate HasSkills(key: Key) {
    key.session.Some? && key.agent
  }

  datatype Outcome = Delivered(inventory: Inventory) | Rejected(message: string)

  /** What the panel shows: an inventory, an error, or nothing yet. */
  datatype Display = Display(inventory: Option<Inventory>, error: string)

  const BLANK := Display(None, "")

  function Rendered(outcome: Outcome): Display {
    match outcome
    case Delivered(inventory) => Display(Some(inventory), "")
    case Rejected(message) => Display(None, message)
  }

  /** A request: what was focused when it was sent, and its outcome once it has landed. */
  datatype Request = Request(key: Key, answer: Option<Outcome>)

  datatype State = State(key: Key, effectDue: bool, generation: nat, display: Display, requests: map<nat, Request>)

  datatype Event = Render(next: Key) | Effect | Refresh | Land(ticket: nat, outcome: Outcome)

  function Mounted(key: Key): State {
    State(key, true, 0, BLANK, map[])
  }

  /** `loadSkills`, up to its first wait. */
  function Sent(s: State): State {
    var mine := s.generation + 1;
    s.(generation := mine, requests := s.requests[mine := Request(s.key, None)])
  }

  function AfterEffect(s: State): State {
    var cleared := s.(effectDue := false, generation := s.generation + 1, display := BLANK);
    if HasSkills(s.key) then Sent(cleared) else cleared
  }

  /** `loadSkills`, after its wait. */
  function Landed(s: State, ticket: nat, outcome: Outcome): State
    requires ticket in s.requests
  {
    s.(display := if ticket == s.generation then Rendered(outcome) else s.display,
       requests := s.requests[ticket := Request(s.requests[ticket].key, Some(outcome))])
  }

  function InFlight(s: State): set<nat> {
    set t | t in s.requests && s.requests[t].answer.None?
  }

  /** One step; an event that cannot happen in a state leaves it alone. Rendering runs a due effect first. */
  function Step(s: State, e: Event): State {
    match e
    case Render(next) =>
      var settled := if s.effectDue then AfterEffect(s) else s;
      settled.(key := next, effectDue := next != settled.key)
    case Effect => if s.effectDue then AfterEffect(s) else s
    case Refresh => if HasSkills(s.key) then Sent(s) else s
    case Land(ticket, outcome) => if ticket in InFlight(s) then Landed(s, ticket, outcome) else s
  }

  function Run(s: State, events: seq<Event>): State
    decreases |events|
  {
    if events == [] then s else Run(Step(s, events[0]), events[1..])
  }

  // ------------------------------------------------------------------ the panel

  /** The component. Its hooks' state is in the fields; `requests` is the history of what it has asked for. */
  class Panel {
    var key: Key
    var effectDue: bool
    var generation: nat
    var inventory: Option<Inventory>
    var skillsError: string
    ghost var requests: map<nat, Request>

    ghost function View(): State
      reads this
    {
      State(key, effectDue, generation, Display(inventory, skillsError), requests)
    }

    constructor (focused: Key)
      ensures View() == Mounted(focused)
    {
      key, effectDue, generation, inventory, skillsError, requests := focused, true, 0, None, "", map[];
    }

    method LoadSkills() returns (mine: nat)
      modifies this
      ensures View() == Sent(old(View())) && mine == generation
    {
      generation := generation + 1;
      mine := generation;
      requests := requests[mine := Request(key, None)];
    }

    method RunEffect()
      requires effectDue
      modifies this
      ensures View() == Step(old(View()), Effect)
    {
      effectDue := false;
      generation := generation + 1;
      inventory, skillsError := None, "";
      if key.session.Some? && key.agent {
        var _ := LoadSkills();
      }
    }

    method Focus(next: Key)
      modifies this
      ensures View() == Step(old(View()), Render(next))
    {
      if effectDue {
        RunEffect();
      }
      effectDue := next != key;
      key := next;
    }

    method ClickRefresh()
      modifies this
      ensures View() == Step(old(View()), Refresh)
    {
      if key.session.Some? && key.agent {
        var _ := LoadSkills();
      }
    }

    method Settle(mine: nat, outcome: Outcome)
      requires mine in InFlight(View())
      modifies this
      ensures View() == Step(old(View()), Land(mine, outcome))
    {
      requests := requests[mine := Request(requests[mine].key, Some(outcome))];
      if mine != generation {
        return;
      }
      match outcome
      case Delivered(result) => inventory, skillsError := Some(result), "";
      case Rejected(message) => inventory, skillsError := None, message;
    }
  }

  // ------------------------------------------------------------------ what every step keeps

  /** The display is the rendered answer of request `t`, sent for `key`. */
  predicate Shows(s: State, t: nat, key: Key) {
    t in s.requests && s.requests[t].key == key && s.requests[t].answer.Some?
    && s.display == Rendered(s.requests[t].answer.value)
  }

  ghost predicate ShowsAnAnswerFor(s: State, key: Key) {
    exists t :: Shows(s, t, key)
  }

  predicate Newest(s: State) {
    s.generation in s.requests && s.requests[s.generation].key == s.key
  }

  /** The newest request has landed. */
  predicate Answered(s: State) {
    s.generation in s.requests && s.requests[s.generation].answer.Some?
  }

  ghost predicate Consistent(s: State) {
    && (forall t | t in s.requests :: 0 < t <= s.generation)
    && (Answered(s) ==> s.display == Rendered(s.requests[s.generation].answer.value))
    && (!s.effectDue && HasSkills(s.key) ==> Newest(s))
    && (!s.effectDue && !HasSkills(s.key) ==> s.generation !in s.requests && s.display == BLANK)
    && (!s.effectDue && s.display != BLANK ==> ShowsAnAnswerFor(s, s.key))
  }

  lemma {:induction false} SendingKeepsAnswers(s: State, key: Key)
    requires (forall t | t in s.requests :: 0 < t <= s.generation) && ShowsAnAnswerFor(s, key)
    ensures ShowsAnAnswerFor(Sent(s), key)
  {
    var t :| Shows(s, t, key);
    assert Shows(Sent(s), t, key);
  }

  lemma {:induction false} SendingIsConsistent(s: State)
    requires Consistent(s) && HasSkills(s.key)
    ensures Consistent(Sent(s))
  {
    if !s.effectDue && s.display != BLANK {
      SendingKeepsAnswers(s, s.key);
    }
  }

  lemma {:induction false} EffectIsConsistent(s: State)
    requires forall t | t in s.requests :: 0 < t <= s.generation
    ensures Consistent(AfterEffect(s)) && !AfterEffect(s).effectDue
  {
  }

  lemma {:induction false} LandingIsConsistent(s: State, ticket: nat, outcome: Outcome)
    requires Consistent(s) && ticket in InFlight(s)
    ensures Consistent(Landed(s, ticket, outcome))
  {
    var after := Landed(s, ticket, outcome);
    if !s.effectDue && after.display != BLANK {
      if ticket == s.generation {
        assert Shows(after, ticket, s.key);
      } else {
        var t :| Shows(s, t, s.key);
        assert Shows(after, t, s.key);
      }
    }
  }

  lemma {:induction false} RenderIsConsistent(s: State, next: Key)
    requires Consistent(s) && !s.effectDue
    ensures Consistent(Step(s, Render(next)))
  {
    var after := Step(s, Render(next));
    if next == s.key {
      assert after == s;
    }
  }

  lemma {:induction false} StepIsConsistent(s: State, e: Event)
    requires Consistent(s)
    ensures Consistent(Step(s, e))
  {
    match e
    case Render(next) =>
      EffectIsConsistent(s);
      RenderIsConsistent(if s.effectDue then AfterEffect(s) else s, next);
    case Effect => EffectIsConsistent(s);
    case Refresh =>
      if HasSkills(s.key) {
        SendingIsConsistent(s);
      }
    case Land(ticket, outcome) =>
      if ticket in InFlight(s) {
        LandingIsConsistent(s, ticket, outcome);
      }
  }

  lemma {:induction false} RunIsConsistent(s: State, events: seq<Event>)
    requires Consistent(s)
    ensures Consistent(Run(s, events))
    decreases |events|
  {
    hide Consistent, Step;
    if events != [] {
      StepIsConsistent(s, events[0]);
      RunIsConsistent(Step(s, events[0]), events[1..]);
    }
  }

  // ------------------------------------------------------------------ what every run shows

  /** The panel shows what some request sent for `key` was answered: its inventory, or its error. */
  ghost predicate AnswerStands(s: State, key: Key) {
    || (exists t, inventory :: t in s.requests && s.requests[t] == Request(key, Some(Delivered(inventory)))
                               && s.display == Display(Some(inventory), ""))
    || exists t, message :: t in s.requests && s.requests[t] == Request(key, Some(Rejected(message)))
                            && s.display == Display(None, message)
  }

  lemma {:induction false} ShownAnswerStands(s: State, key: Key)
    requires ShowsAnAnswerFor(s, key)
    ensures AnswerStands(s, key)
  {
    var t :| Shows(s, t, key);
    match s.requests[t].answer.value
    case Delivered(inventory) => assert s.requests[t] == Request(key, Some(Delivered(inventory)));
    case Rejected(message) => assert s.requests[t] == Request(key, Some(Rejected(message)));
  }

  /** In every run, once no effect is due: without a focused agent the panel is blank. With one, the newest request was
      sent for what is focused now, and its answer is what is shown, the inventory or the error; until it lands, the
      panel is blank or shows the answer to an earlier request for the same. So a blank panel means that the newest
      request has not landed, or failed without a message. */
  lemma {:induction false} OnlyTheFocusedSessionIsShown(key: Key, events: seq<Event>)
    ensures var s := Run(Mounted(key), events);
      !s.effectDue ==>
        if s.key.session.Some? && s.key.agent then
          && s.generation in s.requests && s.requests[s.generation].key == s.key
          && match s.requests[s.generation].answer
             case None => s.display == Display(None, "") || AnswerStands(s, s.key)
             case Some(Delivered(inventory)) => s.display == Display(Some(inventory), "")
             case Some(Rejected(message)) => s.display == Display(None, message)
        else s.generation !in s.requests && s.display == Display(None, "")
  {
    hide Run, Step, ShowsAnAnswerFor, AnswerStands;
    RunIsConsistent(Mounted(key), events);
    var s := Run(Mounted(key), events);
    if ShowsAnAnswerFor(s, s.key) {
      ShownAnswerStands(s, s.key);
    }
  }

  /** Asking again leaves what is shown until the answer lands; and without a focused agent nothing is asked. Rendering
      what is focused already changes nothing. */
  lemma {:induction false} RefreshKeepsTheDisplay(s: State)
    ensures !s.effectDue ==> Step(s, Render(s.key)) == s
    ensures var after := Step(s, Refresh);
      && after.display == s.display && after.key == s.key && after.effectDue == s.effectDue
      && (after.requests != s.requests ==> s.key.session.Some? && s.key.agent)
      && (s.key.session.Some? && s.key.agent ==>
            after.generation > s.generation && after.requests[after.generation] == Request(s.key, None))
  {
    assert s.key.session.Some? && s.key.agent ==> Step(s, Refresh).generation == s.generation + 1;
  }

  /** A due effect is the only time another session's answer can stand: between a render and its effect it
      always does, whatever the two sessions are. */
  lemma {:induction false} StaleUntilTheEffect(key: Key, next: Key, inventory: Inventory)
    requires HasSkills(key) && key != next
    ensures var s := Run(Mounted(key), [Effect, Land(2, Delivered(inventory)), Render(next)]);
      s.key == next && s.effectDue && s.display == Display(Some(inventory), "") && AnswerStands(s, key)
      && Step(s, Effect).display == Display(None, "")
  {
    var landing, render: Event := Land(2, Delivered(inventory)), Render(next);
    var s1 := Step(Mounted(key), Effect);
    assert s1 == State(key, false, 2, BLANK, map[2 := Request(key, None)]);
    assert 2 in InFlight(s1);
    var s2 := Step(s1, landing);
    var s3 := Step(s2, render);
    assert [Effect, landing, render][1..] == [landing, render] && [landing, render][1..] == [render];
    assert Run(s3, []) == s3;
    assert Run(s2, [render]) == Run(s3, [render][1..]);
    assert Run(s1, [landing, render]) == Run(s2, [render]);
    assert s3.requests[2] == Request(key, Some(Delivered(inventory)));
  }

  /** A response to any request but the newest changes nothing that is shown. */
  lemma {:induction false} StaleResponseChangesNothing(s: State, ticket: nat, outcome: Outcome)
    requires ticket != s.generation
    ensures var after := Step(s, Land(ticket, outcome));
      after.(requests := s.requests) == s && InFlight(after) == InFlight(s) - {ticket}
  {
  }

  predicate OnlyLandings(events: seq<Event>) {
    forall i | 0 <= i < |events| :: events[i].Land?
  }

  /** What the first landing of a request brings. */
  function FirstLanding(events: seq<Event>, ticket: nat): Option<Outcome> {
    if events == [] then None
    else if events[0].Land? && events[0].ticket == ticket then Some(events[0].outcome)
    else FirstLanding(events[1..], ticket)
  }

  /** While responses land, in whatever order and however they turn out, the newest request alone decides what is
      shown, and nothing else about the panel changes. */
  lemma {:induction false} NewestDecides(s: State, landings: seq<Event>)
    requires OnlyLandings(landings) && s.generation in InFlight(s)
    ensures var after := Run(s, landings);
      && after.key == s.key && after.effectDue == s.effectDue && after.generation == s.generation
      && after.display == match FirstLanding(landings, s.generation)
                          case Some(Delivered(inventory)) => Display(Some(inventory), "")
                          case Some(Rejected(message)) => Display(None, message)
                          case None => s.display
    decreases |landings|
  {
    if landings != [] {
      var next := Step(s, landings[0]);
      if landings[0].ticket == s.generation {
        AnsweredStays(next, landings[1..]);
      } else {
        NewestDecides(next, landings[1..]);
      }
    }
  }

  lemma {:induction false} AnsweredStays(s: State, landings: seq<Event>)
    requires OnlyLandings(landings) && s.generation !in InFlight(s)
    ensures Run(s, landings).(requests := s.requests) == s
    decreases |landings|
  {
    if landings != [] {
      AnsweredStays(Step(s, landings[0]), landings[1..]);
    }
  }

  /** Two orders of landing that bring the newest request the same outcome leave the same panel. */
  lemma {:induction false} LandingOrderIsIrrelevant(s: State, these: seq<Event>, those: seq<Event>)
    requires OnlyLandings(these) && OnlyLandings(those) && s.generation in InFlight(s)
    requires FirstLanding(these, s.generation) == FirstLanding(those, s.generation)
    ensures Run(s, these).(requests := map[]) == Run(s, those).(requests := map[])
  {
    hide InFlight, FirstLanding;
    NewestDecides(s, these);
    NewestDecides(s, those);
  }
}
