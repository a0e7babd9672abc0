/** Every run of the shared status, with exchanges that answer or fail at any later time. */
module PresenceRuns {
  import opened Common
  import opened Presences

  /** The connection an exchange keeps is named by the exchange: it shows that exchange's activity. */
  datatype World = World(status: Status<Publish>, underway: set<Publish>, failed: set<Publish>)

  datatype Event =
    | Share(on: bool)
    | Start(activity: Activity)
    | Close(id: MatchId)
    | Answer(exchange: Publish)
    | Fail(exchange: Publish)

  const INITIAL := World(Status(false, 0, None, 0, None), {}, {})

  predicate Possible(w: World, e: Event) {
    (e.Answer? || e.Fail?) ==> e.exchange in w.underway
  }

  /** A change publishes what it leaves to be shown; an exchange is over once it answers or fails. */
  function Next(w: World, e: Event): World {
    match e
    case Share(on) =>
      if on == w.status.enabled then w else Publishing(w, w.status.Sharing(on))
    case Start(activity) => Publishing(w, w.status.Began(activity))
    case Close(id) => w.(status := w.status.Ended(id))
    case Answer(p) =>
      World(w.status.Kept(p.attempt, p), w.underway - {p}, w.failed)
    case Fail(p) => World(w.status, w.underway - {p}, w.failed + {p})
  }

  function Publishing(w: World, changed: Status<Publish>): World {
    var next := changed.Wanted();
    World(changed, w.underway + (if next.Some? then {next.value} else {}), w.failed)
  }

  ghost predicate PossibleRun(w: World, events: seq<Event>)
    decreases |events|
  {
    events == [] || (Possible(w, events[0]) && PossibleRun(Next(w, events[0]), events[1..]))
  }

  ghost function Run(w: World, events: seq<Event>): World
    decreases |events|
  {
    if events == [] then w else Run(Next(w, events[0]), events[1..])
  }

  /** The shared state takes each step of a run, and publishes exactly what the run publishes. */
  method TakeStep(state: State<Publish>, ghost w: World, e: Event)
    returns (next: Option<Publish>)
    requires state.Value() == w.status && Possible(w, e)
    modifies state
    ensures state.Value() == Next(w, e).status
    ensures next.Some? ==> Next(w, e).underway == w.underway + {next.value}
    ensures next.None? ==> Next(w, e).underway <= w.underway
  {
    next := None;
    match e {
      case Share(on) =>
        next := state.SetEnabled(on);
      case Start(activity) =>
        var _, published := state.Begin(activity);
        next := published;
      case Close(id) =>
        state.End(id);
      case Answer(exchange) =>
        var _ := state.Keep(exchange.attempt, exchange);
      case Fail(_) =>
    }
  }

  /** Every run goes through the shared state itself, and publishes every exchange of the run. */
  method Replay(events: seq<Event>) returns (state: State<Publish>, published: seq<Publish>)
    requires PossibleRun(INITIAL, events)
    ensures fresh(state) && state.Value() == Run(INITIAL, events).status
    ensures forall p :: p in Run(INITIAL, events).underway ==> p in published
  {
    hide Next, Possible;
    state := new State();
    published := [];
    ghost var w := INITIAL;
    assert events[0..] == events;
    for i := 0 to |events|
      invariant fresh(state) && state.Value() == w.status
      invariant forall p :: p in w.underway ==> p in published
      invariant PossibleRun(w, events[i..]) && Run(w, events[i..]) == Run(INITIAL, events)
    {
      assert events[i..][1..] == events[i + 1..];
      var next := TakeStep(state, w, events[i]);
      if next.Some? {
        published := published + [next.value];
      }
      w := Next(w, events[i]);
    }
  }

  // ----- What holds throughout -----

  ghost predicate Inv(w: World) {
    && (forall p :: p in w.underway ==>
          p.attempt <= w.status.attempt
          && (p.attempt == w.status.attempt ==> w.status.Wanted() == Some(p)))
    && (forall p :: p in w.failed ==> p.attempt <= w.status.attempt)
    && (w.status.connection.Some? ==> w.status.Wanted() == w.status.connection)
    && (w.status.Wanted().Some? ==>
          var p := w.status.Wanted().value;
          p in w.underway || p in w.failed || w.status.connection == Some(p))
    && (w.status.current.Some? ==> w.status.current.value.0 <= w.status.lastMatch)
  }

  lemma ChangeKeepsInv(w: World, changed: Status<Publish>)
    requires Inv(w) && changed.attempt == w.status.attempt + 1 && changed.connection.None?
    requires changed.current.Some? ==> changed.current.value.0 <= changed.lastMatch
    ensures Inv(Publishing(w, changed))
  {
  }

  lemma NextKeepsInv(w: World, e: Event)
    requires Inv(w) && Possible(w, e)
    ensures Inv(Next(w, e))
  {
    match e
    case Share(on) => if on != w.status.enabled { ChangeKeepsInv(w, w.status.Sharing(on)); }
    case Start(activity) => ChangeKeepsInv(w, w.status.Began(activity));
    case Close(id) => if w.status.Playing(id) { ChangeKeepsInv(w, w.status.Ended(id)); }
    case Answer(p) =>
    case Fail(p) =>
  }

  lemma {:induction false} RunKeepsInv(w: World, events: seq<Event>)
    requires Inv(w) && PossibleRun(w, events)
    ensures Inv(Run(w, events))
    decreases |events|
  {
    if events != [] {
      NextKeepsInv(w, events[0]);
      RunKeepsInv(Next(w, events[0]), events[1..]);
    }
  }

  // ----- What the events say -----

  /** The player's last choice; nothing is shared until one is made. */
  function LastShare(events: seq<Event>): bool {
    if events == [] then false
    else
      var last := |events| - 1;
      if events[last].Share? then events[last].on else LastShare(events[..last])
  }

  /** How many matches have started; the match that starts as the n-th has the id n. */
  function Starts(events: seq<Event>): nat {
    if events == [] then 0
    else Starts(events[..|events| - 1]) + if events[|events| - 1].Start? then 1 else 0
  }

  function IdOf(events: seq<Event>, i: nat): MatchId
    requires i < |events|
  {
    Starts(events[..i + 1])
  }

  /** The match that starts at `i` is the last to start, and its game has not closed since. */
  ghost predicate IsCurrent(events: seq<Event>, i: nat) {
    && i < |events| && events[i].Start?
    && forall j :: i < j < |events| ==>
         !events[j].Start? && events[j] != Close(IdOf(events, i))
  }

  lemma RunOneMore(w: World, events: seq<Event>, e: Event)
    ensures Run(w, events + [e]) == Next(Run(w, events), e)
  {
    RunOfConcat(w, events, [e]);
    RunOfOne(Run(w, events), e);
  }

  /** What is shared, and which match is played, follow from the events alone. */
  lemma {:induction false} StateFollowsEvents(events: seq<Event>)
    ensures var status := Run(INITIAL, events).status;
            && status.enabled == LastShare(events) && status.lastMatch == Starts(events)
            && (status.current.Some? ==>
                  exists i :: && 0 <= i < |events| && IsCurrent(events, i)
                              && status.current == Some((IdOf(events, i), events[i].activity)))
            && forall i :: 0 <= i < |events| && IsCurrent(events, i) ==>
                 status.current == Some((IdOf(events, i), events[i].activity))
    decreases |events|
  {
    hide Run, Next;
    if events == [] {
      NothingRuns(INITIAL);
    } else {
      var last := |events| - 1;
      var front, e := events[..last], events[last];
      StateFollowsEvents(front);
      RunOneMore(INITIAL, front, e);
      assert front + [e] == events;
      FieldsAfter(Run(INITIAL, front), e);
      forall i | 0 <= i < last ensures IdOf(front, i) == IdOf(events, i) {
        assert front[..i + 1] == events[..i + 1];
      }
      assert events[..last + 1] == events;
      CurrentAfter(events);
    }
  }

  lemma NothingRuns(w: World)
    ensures Run(w, []) == w
  {
  }

  lemma FieldsAfter(w: World, e: Event)
    ensures var before, after := w.status, Next(w, e).status;
            && after.enabled == (if e.Share? then e.on else before.enabled)
            && after.lastMatch == before.lastMatch + (if e.Start? then 1 else 0)
            && after.current == (if e.Start? then Some((before.lastMatch + 1, e.activity))
                                 else if e.Close? && before.Playing(e.id) then None
                                 else before.current)
  {
  }

  lemma CurrentAfter(events: seq<Event>)
    requires events != []
    ensures var last := |events| - 1;
            && (IsCurrent(events, last) <==> events[last].Start?)
            && forall i :: 0 <= i < last ==>
                 (IsCurrent(events, i)
                  <==> && IsCurrent(events[..last], i) && !events[last].Start?
                       && events[last] != Close(IdOf(events, i)))
  {
    var last := |events| - 1;
    forall i | 0 <= i < last
      ensures IsCurrent(events, i)
              <==> && IsCurrent(events[..last], i) && !events[last].Start?
                   && events[last] != Close(IdOf(events, i))
    {
      assert events[..last][..i + 1] == events[..i + 1];
      assert forall j :: i < j < last ==> events[..last][j] == events[j];
    }
  }

  /**
   A held connection shows the match that started last, whose game has not closed, and the player's
   last choice is to share. And whenever that is so, the match is shown, unless its own exchange is
   under way or has failed.
   */
  lemma ShowsTheCurrentMatch(events: seq<Event>)
    requires PossibleRun(INITIAL, events)
    ensures var w := Run(INITIAL, events);
            && (w.status.connection.Some? ==>
                  && LastShare(events)
                  && exists i :: && 0 <= i < |events| && IsCurrent(events, i)
                                 && w.status.connection.value.activity == events[i].activity)
            && forall i :: 0 <= i < |events| && IsCurrent(events, i) && LastShare(events) ==>
                 var own := Publish(w.status.attempt, events[i].activity);
                 w.status.connection == Some(own) || own in w.underway || own in w.failed
  {
    hide IsCurrent, LastShare, Starts, Run;
    RunKeepsInv(INITIAL, events);
    StateFollowsEvents(events);
  }

  // ----- Stale exchanges -----

  /** An event that leaves what should be shown alone. */
  predicate Quiet(w: World, e: Event) {
    match e
    case Share(on) => on == w.status.enabled
    case Start(_) => false
    case Close(id) => !w.status.Playing(id)
    case Answer(_) => true
    case Fail(_) => true
  }

  ghost predicate AllQuiet(w: World, events: seq<Event>)
    decreases |events|
  {
    events == [] || (Quiet(w, events[0]) && AllQuiet(Next(w, events[0]), events[1..]))
  }

  lemma {:induction false} AttemptCountsChanges(w: World, events: seq<Event>)
    ensures Run(w, events).status.attempt >= w.status.attempt
    ensures Run(w, events).status.attempt == w.status.attempt <==> AllQuiet(w, events)
    decreases |events|
  {
    if events != [] {
      AttemptCountsChanges(Next(w, events[0]), events[1..]);
    }
  }

  /**
   An exchange published by an event and answered after any further events is kept exactly when
   nothing changed in between; kept or not, it leaves the rest of the state alone.
   */
  lemma KeptUnlessChanged(before: World, e: Event, between: seq<Event>, p: Publish)
    requires Inv(before) && Possible(before, e)
    requires p in Next(before, e).underway && p !in before.underway
    ensures var w := Run(Next(before, e), between);
            var answered := Next(w, Answer(p)).status;
            answered == if AllQuiet(Next(before, e), between)
                        then w.status.(connection := Some(p)) else w.status
  {
    AttemptCountsChanges(Next(before, e), between);
  }

  // ----- Earlier matches -----

  /** No event brings an ended match, or one that a later match replaced, back. */
  lemma {:induction false} StaysOver(w: World, events: seq<Event>, id: MatchId)
    requires w.status.lastMatch >= id && !w.status.Playing(id)
    ensures !Run(w, events).status.Playing(id)
    decreases |events|
  {
    if events != [] {
      StaysOver(Next(w, events[0]), events[1..], id);
    }
  }

  lemma {:induction false} RunOfConcat(w: World, first: seq<Event>, second: seq<Event>)
    ensures Run(w, first + second) == Run(Run(w, first), second)
    decreases |first|
  {
    if first == [] {
      assert first + second == second;
    } else {
      RunOfConcat(Next(w, first[0]), first[1..], second);
      assert (first + second)[1..] == first[1..] + second;
    }
  }

  lemma {:induction false} MatchesOnlyGrow(w: World, events: seq<Event>)
    ensures Run(w, events).status.lastMatch >= w.status.lastMatch
    decreases |events|
  {
    if events != [] {
      MatchesOnlyGrow(Next(w, events[0]), events[1..]);
    }
  }

  /**
   Once a later match has started, closing the game of an earlier one changes nothing, however
   late it is reported.
   */
  lemma LaterMatchUntouched(
    w: World, earlier: Activity, between: seq<Event>, later: Activity, after: seq<Event>)
    ensures var id := w.status.lastMatch + 1;
            var all := [Start(earlier)] + between + [Start(later)] + after;
            var reached := Run(w, all);
            Next(reached, Close(id)) == reached
  {
    hide Run, Next;
    var id := w.status.lastMatch + 1;
    var one := Next(w, Start(earlier));
    var two := Run(one, between);
    var three := Next(two, Start(later));
    StartIsLater(w, earlier);
    MatchesOnlyGrow(one, between);
    StartIsLater(two, later);
    StaysOver(three, after, id);
    CloseIsIdle(Run(three, after), id);
    RunOfOne(w, Start(earlier));
    RunOfOne(two, Start(later));
    RunOfConcat(w, [Start(earlier)], between);
    RunOfConcat(w, [Start(earlier)] + between, [Start(later)]);
    RunOfConcat(w, [Start(earlier)] + between + [Start(later)], after);
  }

  lemma StartIsLater(w: World, activity: Activity)
    ensures var next := Next(w, Start(activity)).status;
            next.lastMatch == w.status.lastMatch + 1 && next.Playing(next.lastMatch)
  {
  }

  lemma CloseIsIdle(w: World, id: MatchId)
    requires !w.status.Playing(id)
    ensures Next(w, Close(id)) == w
  {
  }

  lemma RunOfOne(w: World, e: Event)
    ensures Run(w, [e]) == Next(w, e)
  {
    assert [e][1..] == [];
  }
}
