/**
 Every interleaving of sweeps, background sweeps, direct checks, joins and ownership drops.

 A step is one lock scope of the shared list. Tickets and ownerships are handed out by earlier
 steps and may be used at any later time, in any order, any number of times. Each carries the
 number of foreground sweeps begun before it was issued, so that "retired" has a meaning that does
 not depend on the wrapping generation counter.
 */
module ListRuns {
  import opened Common
  import opened Discovery
  import opened Ledgers
  import ServerList

  datatype Permit = Permit(ticket: Ticket, sweeps: nat)

  datatype Owner = Owner(ownership: Ownership, sweeps: nat)

  datatype System = System(
    ledger: Ledger,
    sweeps: nat,
    permits: set<Permit>,
    owners: map<nat, Owner>)

  datatype Step =
    | BeginSweep(game: TargetGame)
    | BeginBackground(game: TargetGame)
    | TakeTicket(game: TargetGame)
    | Sweep(permit: Permit, batch: seq<Server>, replace: bool)
    | Check(permit: Permit, asked: SocketAddr, outcome: Option<Server>)
    | Join(id: nat, address: Option<SocketAddr>, game: TargetGame)
    | Drop(id: nat)

  const INITIAL: System := System(EMPTY, 0, {}, map[])

  predicate Enabled(s: System, step: Step) {
    match step
    case Sweep(permit, _, _) => permit in s.permits
    case Check(permit, _, _) => permit in s.permits
    case Join(id, _, _) => id !in s.owners
    case Drop(id) => id in s.owners
    case _ => true
  }

  function Next(s: System, step: Step): System
    requires Enabled(s, step)
  {
    match step
    case BeginSweep(game) =>
      var ledger := s.ledger.BeginSweep(game);
      System(ledger, s.sweeps + 1,
             s.permits + {Permit(Ticket(game, ledger.generation), s.sweeps + 1)}, s.owners)
    case BeginBackground(game) =>
      // When another game is listed the lock is released, and the sweep begins in a later step.
      if s.ledger.game != Some(game) then s
      else s.(ledger := s.ledger.BeginBackground(game),
              permits := s.permits + {Permit(Ticket(game, s.ledger.generation), s.sweeps)})
    case TakeTicket(game) =>
      s.(permits := s.permits + {Permit(Ticket(game, s.ledger.generation), s.sweeps)})
    case Sweep(permit, batch, replace) =>
      s.(ledger := s.ledger.Sweep(permit.ticket, ServerList.View(batch), replace))
    case Check(permit, asked, outcome) =>
      s.(ledger := s.ledger.Check(permit.ticket, asked, outcome))
    case Join(id, address, game) =>
      if s.ledger.Find(address, game).Failure? then s
      else s.(ledger := s.ledger.Join(address, game),
              owners := s.owners[id := Owner(Ownership(Ticket(game, s.ledger.generation),
                                                       address.value), s.sweeps)])
    case Drop(id) =>
      s.(ledger := s.ledger.Drop(s.owners[id].ownership), owners := s.owners - {id})
  }

  predicate Possible(s: System, steps: seq<Step>)
    decreases |steps|, 0
  {
    steps == [] ||
    var last := |steps| - 1;
    Possible(s, steps[..last]) && Enabled(Run(s, steps[..last]), steps[last])
  }

  function Run(s: System, steps: seq<Step>): System
    requires Possible(s, steps)
    decreases |steps|, 1
  {
    if steps == [] then s
    else
      var last := |steps| - 1;
      Next(Run(s, steps[..last]), steps[last])
  }

  // ----- What every step keeps -----

  /** The joins that are running at an endpoint and began after `sweeps` foreground sweeps. */
  function LiveAt(owners: map<nat, Owner>, sweeps: nat, a: SocketAddr): set<nat> {
    set id | id in owners && owners[id].sweeps == sweeps && owners[id].ownership.address == a
  }

  ghost predicate Counted(joining: map<SocketAddr, nat>, owners: map<nat, Owner>, sweeps: nat) {
    forall a :: CountedAt(joining, LiveAt(owners, sweeps, a), a)
  }

  predicate CountedAt(joining: map<SocketAddr, nat>, live: set<nat>, a: SocketAddr) {
    if live == {} then a !in joining else a in joining && joining[a] == |live|
  }

  ghost predicate JoinsCounted(s: System) {
    Counted(s.ledger.joining, s.owners, s.sweeps)
  }

  ghost predicate Issued(s: System) {
    && s.ledger.generation == s.sweeps % GENERATIONS
    && (forall p :: p in s.permits ==>
          p.sweeps <= s.sweeps && p.ticket.generation == p.sweeps % GENERATIONS)
    && (forall id :: id in s.owners ==>
          && s.owners[id].sweeps <= s.sweeps
          && s.owners[id].ownership.ticket.generation == s.owners[id].sweeps % GENERATIONS
          && (s.owners[id].sweeps == s.sweeps ==>
                s.ledger.game == Some(s.owners[id].ownership.ticket.game)))
  }

  ghost predicate Inv(s: System) {
    s.ledger.Sound() && JoinsCounted(s) && Issued(s)
  }

  lemma {:induction false} NextKeepsIssued(s: System, step: Step)
    requires Inv(s) && Enabled(s, step)
    ensures Issued(Next(s, step))
  {
    if step.BeginSweep? {
      SuccModulo(s.sweeps);
    }
  }

  lemma SuccModulo(n: nat)
    ensures (n % GENERATIONS + 1) % GENERATIONS == (n + 1) % GENERATIONS
  {
  }

  lemma {:induction false} NextKeepsCounts(s: System, step: Step)
    requires Inv(s) && Enabled(s, step) && Next(s, step).sweeps < GENERATIONS
    ensures Next(s, step).ledger.Sound() && JoinsCounted(Next(s, step))
  {
    match step {
      case BeginSweep(game) =>
        var sweeps := s.sweeps + 1;
        forall a ensures LiveAt(s.owners, sweeps, a) == {} {}
      case Join(id, address, game) =>
        if s.ledger.Find(address, game).Success? {
          JoinAdds(s.ledger.joining, s.owners, s.sweeps, id, Next(s, step).owners[id]);
        }
      case Drop(id) =>
        DropKeepsCounts(s, id);
      case _ =>
    }
  }

  lemma JoinAdds(joining: map<SocketAddr, nat>, owners: map<nat, Owner>, sweeps: nat,
                 id: nat, owner: Owner)
    requires Counted(joining, owners, sweeps) && id !in owners && owner.sweeps == sweeps
    ensures var a := owner.ownership.address;
            Counted(joining[a := (if a in joining then joining[a] else 0) + 1],
                    owners[id := owner], sweeps)
  {
    var address, joined := owner.ownership.address, owners[id := owner];
    var count := (if address in joining then joining[address] else 0) + 1;
    var after := joining[address := count];
    forall a
      ensures CountedAt(after, LiveAt(joined, sweeps, a), a)
    {
      assert CountedAt(joining, LiveAt(owners, sweeps, a), a);
      JoinedLive(owners, sweeps, id, owner, a);
    }
  }

  lemma JoinedLive(owners: map<nat, Owner>, sweeps: nat, id: nat, owner: Owner, a: SocketAddr)
    requires id !in owners && owner.sweeps == sweeps
    ensures LiveAt(owners[id := owner], sweeps, a)
            == LiveAt(owners, sweeps, a) + (if a == owner.ownership.address then {id} else {})
  {
  }

  lemma DropRemoves(joining: map<SocketAddr, nat>, owners: map<nat, Owner>, sweeps: nat, id: nat)
    requires Counted(joining, owners, sweeps) && id in owners && owners[id].sweeps == sweeps
    ensures var a := owners[id].ownership.address;
            && a in joining
            && Counted(if joining[a] <= 1 then joining - {a} else joining[a := joining[a] - 1],
                       owners - {id}, sweeps)
  {
    var address := owners[id].ownership.address;
    var live := LiveAt(owners, sweeps, address);
    assert CountedAt(joining, live, address);
    assert id in live && |live| == |live - {id}| + 1;
    var after := if joining[address] <= 1 then joining - {address}
                 else joining[address := joining[address] - 1];
    forall a
      ensures CountedAt(after, LiveAt(owners - {id}, sweeps, a), a)
    {
      assert CountedAt(joining, LiveAt(owners, sweeps, a), a);
      assert LiveAt(owners - {id}, sweeps, a)
             == LiveAt(owners, sweeps, a) - (if a == address then {id} else {});
    }
  }

  lemma RetiredDropRemovesNone(joining: map<SocketAddr, nat>, owners: map<nat, Owner>, sweeps: nat,
                               id: nat)
    requires Counted(joining, owners, sweeps) && id in owners && owners[id].sweeps != sweeps
    ensures Counted(joining, owners - {id}, sweeps)
  {
    forall a
      ensures CountedAt(joining, LiveAt(owners - {id}, sweeps, a), a)
    {
      assert CountedAt(joining, LiveAt(owners, sweeps, a), a);
      assert LiveAt(owners - {id}, sweeps, a) == LiveAt(owners, sweeps, a);
    }
  }

  lemma {:induction false} DropKeepsCounts(s: System, id: nat)
    requires Inv(s) && id in s.owners && s.sweeps < GENERATIONS
    ensures Next(s, Drop(id)).ledger.Sound() && JoinsCounted(Next(s, Drop(id)))
  {
    if s.owners[id].sweeps == s.sweeps {
      DropRemoves(s.ledger.joining, s.owners, s.sweeps, id);
    } else {
      RetiredDropRemovesNone(s.ledger.joining, s.owners, s.sweeps, id);
    }
  }

  /** The number of foreground sweeps only grows along a run. */
  lemma {:induction false} SweepsGrow(s: System, steps: seq<Step>)
    requires Possible(s, steps)
    ensures s.sweeps <= Run(s, steps).sweeps
    decreases |steps|
  {
    if steps != [] {
      SweepsGrow(s, steps[..|steps| - 1]);
    }
  }

  /**
   In every reachable state the count at an endpoint is the number of live joins of the current
   list there, no zero count stays behind, and every endpoint being joined is owned.
   */
  lemma {:induction false} JoinsAreCounted(s: System, steps: seq<Step>)
    requires Inv(s) && Possible(s, steps) && Run(s, steps).sweeps < GENERATIONS
    ensures Inv(Run(s, steps))
    decreases |steps|
  {
    if steps != [] {
      var before := steps[..|steps| - 1];
      assert Run(s, before).sweeps <= Run(s, steps).sweeps;
      JoinsAreCounted(s, before);
      NextKeepsIssued(Run(s, before), steps[|steps| - 1]);
      NextKeepsCounts(Run(s, before), steps[|steps| - 1]);
    }
  }

  lemma InitialInv()
    ensures Inv(INITIAL)
  {
    forall a ensures LiveAt(INITIAL.owners, 0, a) == {} {}
  }

  /** Dropping an ownership of a list that has been replaced leaves the new list alone. */
  lemma RetiredDropIsIdle(s: System, id: nat)
    requires Inv(s) && id in s.owners && s.sweeps < GENERATIONS
    requires s.owners[id].sweeps < s.sweeps
    ensures Next(s, Drop(id)).ledger == s.ledger
  {
    assert s.owners[id].ownership.ticket.generation != s.ledger.generation;
  }

  /** A permit is honoured exactly when no foreground sweep has begun since it was issued. */
  lemma AcceptedMeansCurrent(s: System, permit: Permit)
    requires Inv(s) && permit in s.permits && s.sweeps < GENERATIONS
    ensures s.ledger.Accepts(permit.ticket) <==>
            permit.sweeps == s.sweeps
            && (s.ledger.game.None? || s.ledger.game.value == permit.ticket.game)
  {
  }

  // ----- Where a listed server came from -----

  /** Step `i` delivered `server` at `a` under a permit of the list current in `s`, for its game. */
  predicate DeliveredBy(s: System, steps: seq<Step>, i: nat, a: SocketAddr, server: Server)
    requires i < |steps|
  {
    && server.Address() == a
    && match steps[i]
       case Sweep(permit, batch, _) =>
         server in batch && permit.sweeps == s.sweeps && s.ledger.game == Some(permit.ticket.game)
       case Check(permit, _, outcome) =>
         && outcome == Some(server) && permit.sweeps == s.sweeps
         && s.ledger.game == Some(permit.ticket.game)
         && server.AnsweredForAnotherGame(permit.ticket.game).None?
       case _ => false
  }

  lemma {:induction false} ViewIsListed(servers: seq<Server>, a: SocketAddr)
    requires a in ServerList.View(servers)
    ensures ServerList.View(servers)[a] in servers && ServerList.View(servers)[a].Address() == a
  {
    if servers[0].Address() != a {
      ViewIsListed(servers[1..], a);
    }
  }

  lemma NothingListedWithoutGame(s: System, steps: seq<Step>)
    requires Possible(s, steps) && (s.ledger.game.None? ==> s.ledger.view == map[])
    ensures Run(s, steps).ledger.game.None? ==> Run(s, steps).ledger.view == map[]
    decreases |steps|
  {
    if steps != [] {
      NothingListedWithoutGame(s, steps[..|steps| - 1]);
    }
  }

  /**
   Nothing delivered under a retired ticket, or for another game, is ever listed: every listed
   server was reported by some step whose permit belongs to the current list and the current game.
   */
  lemma {:induction false} ListedServersAreCurrent(steps: seq<Step>, a: SocketAddr)
    returns (i: nat)
    requires Possible(INITIAL, steps) && Run(INITIAL, steps).sweeps < GENERATIONS
    requires a in Run(INITIAL, steps).ledger.view
    ensures i < |steps|
    ensures DeliveredBy(Run(INITIAL, steps), steps, i, a, Run(INITIAL, steps).ledger.view[a])
    decreases |steps|
  {
    var last := |steps| - 1;
    var before, s, t := steps[..last], Run(INITIAL, steps[..last]), Run(INITIAL, steps);
    InitialInv();
    JoinsAreCounted(INITIAL, before);
    NothingListedWithoutGame(INITIAL, before);
    i := last;
    if Brings(s, steps[last], a) {
      BroughtIsCurrent(s, steps, a);
    } else {
      OthersKeepEntry(s, steps[last], a);
      i := ListedServersAreCurrent(before, a);
      assert steps[i] == before[i];
    }
  }

  /** The step lists a server at `a` itself. */
  predicate Brings(s: System, step: Step, a: SocketAddr) {
    match step
    case Sweep(permit, batch, _) =>
      s.ledger.Accepts(permit.ticket) && a in ServerList.View(batch) && a !in s.ledger.checked
    case Check(permit, _, outcome) =>
      && s.ledger.Accepts(permit.ticket) && outcome.Some? && outcome.value.Address() == a
      && outcome.value.AnsweredForAnotherGame(permit.ticket.game).None?
    case _ => false
  }

  lemma BroughtIsCurrent(s: System, steps: seq<Step>, a: SocketAddr)
    requires steps != [] && Inv(s) && s.sweeps < GENERATIONS
    requires Enabled(s, steps[|steps| - 1]) && Brings(s, steps[|steps| - 1], a)
    ensures var t := Next(s, steps[|steps| - 1]);
            a in t.ledger.view && DeliveredBy(t, steps, |steps| - 1, a, t.ledger.view[a])
  {
    var step := steps[|steps| - 1];
    AcceptedMeansCurrent(s, step.permit);
    if step.Sweep? {
      ViewIsListed(step.batch, a);
    }
  }

  lemma OthersKeepEntry(s: System, step: Step, a: SocketAddr)
    requires Enabled(s, step) && !Brings(s, step, a) && a in Next(s, step).ledger.view
    requires s.ledger.game.None? ==> s.ledger.view == map[]
    ensures Next(s, step).sweeps == s.sweeps && Next(s, step).ledger.game == s.ledger.game
    ensures a in s.ledger.view && Next(s, step).ledger.view[a] == s.ledger.view[a]
  {
  }

  // ----- Ownership against sweeps -----

  /** The steps that may change what an owned endpoint resolves to, or stop owning it. */
  predicate Leaves(step: Step, a: SocketAddr) {
    match step
    case BeginSweep(_) => false
    case Check(_, asked, outcome) => asked != a && (outcome.Some? ==> outcome.value.Address() != a)
    case _ => true
  }

  predicate Unchanged(s: Ledger, t: Ledger, a: SocketAddr) {
    && s.game == t.game
    && (a in s.view <==> a in t.view)
    && (a in s.view ==> s.view[a] == t.view[a])
  }

  lemma OwnedStepKeepsServer(s: System, step: Step, a: SocketAddr)
    requires Inv(s) && Enabled(s, step) && s.sweeps < GENERATIONS
    requires a in s.ledger.checked && s.ledger.game.Some? && Leaves(step, a)
    ensures Unchanged(s.ledger, Next(s, step).ledger, a)
    ensures step.BeginBackground? || a in Next(s, step).ledger.checked
  {
  }

  /**
   From the start of a join until its ownership is dropped, whatever interleaves: only a foreground
   sweep, or a direct check asked about or answered from that endpoint, changes its entry.
   */
  lemma {:induction false} JoinTargetIsKept(s: System, steps: seq<Step>, id: nat)
    requires Inv(s) && Possible(s, steps) && s.sweeps < GENERATIONS
    requires id in s.owners && s.owners[id].sweeps == s.sweeps
    requires forall i :: 0 <= i < |steps| ==>
               Leaves(steps[i], s.owners[id].ownership.address) && steps[i] != Drop(id)
    ensures Inv(Run(s, steps)) && Run(s, steps).sweeps == s.sweeps
    ensures id in Run(s, steps).owners && Run(s, steps).owners[id] == s.owners[id]
    ensures Unchanged(s.ledger, Run(s, steps).ledger, s.owners[id].ownership.address)
    ensures forall game :: var a := Some(s.owners[id].ownership.address);
              Run(s, steps).ledger.Find(a, game) == s.ledger.Find(a, game)
    decreases |steps|
  {
    if steps != [] {
      var last := |steps| - 1;
      var before, a := steps[..last], s.owners[id].ownership.address;
      assert forall i :: 0 <= i < last ==> before[i] == steps[i];
      JoinTargetIsKept(s, before, id);
      var t := Run(s, before);
      assert Leaves(steps[last], a);
      assert id in LiveAt(t.owners, t.sweeps, a);
      assert CountedAt(t.ledger.joining, LiveAt(t.owners, t.sweeps, a), a);
      NextKeepsIssued(t, steps[last]);
      NextKeepsCounts(t, steps[last]);
      OwnedStepKeepsServer(t, steps[last], a);
    }
  }

  /** An endpoint a check or join has claimed keeps its entry, or its absence, until a sweep begins. */
  lemma {:induction false} ClaimLastsUntilNextSweep(s: System, steps: seq<Step>, a: SocketAddr)
    requires Inv(s) && Possible(s, steps) && s.sweeps < GENERATIONS
    requires a in s.ledger.checked && s.ledger.game.Some?
    requires forall i :: 0 <= i < |steps| ==> Leaves(steps[i], a) && !steps[i].BeginBackground?
    ensures Inv(Run(s, steps)) && Run(s, steps).sweeps == s.sweeps
    ensures a in Run(s, steps).ledger.checked && Unchanged(s.ledger, Run(s, steps).ledger, a)
    decreases |steps|
  {
    if steps != [] {
      var last := |steps| - 1;
      var before := steps[..last];
      assert forall i :: 0 <= i < last ==> before[i] == steps[i];
      ClaimLastsUntilNextSweep(s, before, a);
      var t := Run(s, before);
      assert Leaves(steps[last], a);
      NextKeepsIssued(t, steps[last]);
      NextKeepsCounts(t, steps[last]);
      OwnedStepKeepsServer(t, steps[last], a);
    }
  }

  // ----- A replacing update is authoritative -----

  function Owned(ledger: Ledger): map<SocketAddr, Server> {
    map a | a in ledger.view && a in ledger.checked :: ledger.view[a]
  }

  /**
   However many rows were streamed before it, under whatever permits, the closing report of a sweep
   leaves the list it would have left had nothing been streamed: the owned entries and the report.
   */
  lemma {:induction false} ReportSupersedesStream(s: System, stream: seq<Step>, permit: Permit,
                                                  report: seq<Server>)
    requires Possible(s, stream) && permit in s.permits && s.ledger.Accepts(permit.ticket)
    requires s.ledger.game.Some?
    requires forall i :: 0 <= i < |stream| ==> stream[i].Sweep?
    ensures var closing := Sweep(permit, report, true);
            && permit in Run(s, stream).permits
            && Next(Run(s, stream), closing) == Next(s, closing)
            && Next(s, closing).ledger.view
               == Owned(s.ledger) + (ServerList.View(report) - s.ledger.checked)
  {
    StreamKeepsOwned(s, stream);
  }

  lemma {:induction false} StreamKeepsOwned(s: System, stream: seq<Step>)
    requires Possible(s, stream) && s.ledger.game.Some?
    requires forall i :: 0 <= i < |stream| ==> stream[i].Sweep?
    ensures Run(s, stream) == s.(ledger := s.ledger.(view := Run(s, stream).ledger.view))
    ensures Owned(Run(s, stream).ledger) == Owned(s.ledger)
    decreases |stream|
  {
    if stream != [] {
      var last := |stream| - 1;
      assert forall i :: 0 <= i < last ==> stream[..last][i] == stream[i];
      StreamKeepsOwned(s, stream[..last]);
      assert stream[last].Sweep?;
    }
  }

  /** Without a foreground sweep, what the list is for and which tickets it honours stay the same. */
  lemma {:induction false} GameStays(s: System, steps: seq<Step>)
    requires Possible(s, steps) && s.ledger.game.Some?
    requires forall i :: 0 <= i < |steps| ==> !steps[i].BeginSweep?
    ensures var t := Run(s, steps);
            && t.ledger.game == s.ledger.game && t.ledger.generation == s.ledger.generation
            && s.permits <= t.permits
    decreases |steps|
  {
    if steps != [] {
      var last := |steps| - 1;
      assert forall i :: 0 <= i < last ==> steps[..last][i] == steps[i];
      GameStays(s, steps[..last]);
      assert !steps[last].BeginSweep?;
    }
  }

  /**
   Whatever sweeps, checks, joins and background sweeps came in between, the closing report leaves
   the entries that are owned at that moment, and itself everywhere else.
   */
  lemma ReportClosesRun(s: System, steps: seq<Step>, permit: Permit, report: seq<Server>)
    requires Possible(s, steps) && permit in s.permits && s.ledger.Accepts(permit.ticket)
    requires s.ledger.game.Some?
    requires forall i :: 0 <= i < |steps| ==> !steps[i].BeginSweep?
    ensures var t, closing := Run(s, steps), Sweep(permit, report, true);
            && Enabled(t, closing)
            && Next(t, closing) == t.(ledger := t.ledger.(view :=
                 Owned(t.ledger) + (ServerList.View(report) - t.ledger.checked)))
  {
    GameStays(s, steps);
  }

  /**
   An endpoint claimed at any point of such a run keeps, through the closing report, the answer it
   had when it was claimed, or its absence: only a check about it or the start of another sweep
   ends that, whatever was streamed or reported.
   */
  lemma ReportKeepsClaims(
    s: System, steps: seq<Step>, j: nat, permit: Permit, report: seq<Server>, a: SocketAddr)
    requires Inv(s) && Possible(s, steps) && permit in s.permits && s.ledger.Accepts(permit.ticket)
    requires s.ledger.game.Some? && s.sweeps < GENERATIONS && j <= |steps|
    requires forall i :: 0 <= i < |steps| ==> !steps[i].BeginSweep?
    requires Possible(s, steps[..j]) && a in Run(s, steps[..j]).ledger.checked
    requires forall i :: j <= i < |steps| ==> Leaves(steps[i], a) && !steps[i].BeginBackground?
    ensures var closing := Sweep(permit, report, true);
            && Enabled(Run(s, steps), closing)
            && Unchanged(Run(s, steps[..j]).ledger, Next(Run(s, steps), closing).ledger, a)
  {
    hide Next, Enabled, Run, Possible, Inv;
    ReportClosesRun(s, steps, permit, report);
    assert forall i :: 0 <= i < j ==> steps[..j][i] == steps[i];
    GameStays(s, steps[..j]);
    SweepsStay(s, steps[..j]);
    JoinsAreCounted(s, steps[..j]);
    var claimed, rest := Run(s, steps[..j]), steps[j..];
    RunSplits(s, steps, j);
    assert forall i :: 0 <= i < |rest| ==> rest[i] == steps[j + i];
    ClaimLastsUntilNextSweep(claimed, rest, a);
  }

  lemma {:induction false} SweepsStay(s: System, steps: seq<Step>)
    requires Possible(s, steps)
    requires forall i :: 0 <= i < |steps| ==> !steps[i].BeginSweep?
    ensures Run(s, steps).sweeps == s.sweeps
    decreases |steps|
  {
    if steps != [] {
      var last := |steps| - 1;
      assert forall i :: 0 <= i < last ==> steps[..last][i] == steps[i];
      SweepsStay(s, steps[..last]);
      assert !steps[last].BeginSweep?;
    }
  }

  lemma {:induction false} RunSplits(s: System, steps: seq<Step>, j: nat)
    requires Possible(s, steps) && j <= |steps|
    ensures Possible(s, steps[..j]) && Possible(Run(s, steps[..j]), steps[j..])
    ensures Run(Run(s, steps[..j]), steps[j..]) == Run(s, steps)
    decreases |steps|
  {
    hide Next, Enabled;
    if j == |steps| {
      assert steps[..j] == steps && steps[j..] == [];
    } else {
      var last := |steps| - 1;
      RunSplits(s, steps[..last], j);
      assert steps[..last][..j] == steps[..j];
      assert steps[j..][..last - j] == steps[..last][j..];
      assert steps[j..][last - j] == steps[last];
    }
  }

  // ----- What each step does to what a lookup answers -----

  /** A list for no game yet lists nothing, as in every reachable state. */
  predicate NothingUnclaimed(ledger: Ledger) {
    ledger.game.None? ==> ledger.view == map[]
  }

  ghost predicate IsFirstRow(batch: seq<Server>, i: int, a: SocketAddr) {
    && 0 <= i < |batch| && batch[i].Address() == a
    && forall j :: 0 <= j < i ==> batch[j].Address() != a
  }

  /** The first row of a batch at an endpoint is the one that counts. */
  lemma {:induction false} FirstRowAnswers(batch: seq<Server>, i: nat)
    requires i < |batch| && forall j :: 0 <= j < i ==> batch[j].Address() != batch[i].Address()
    ensures var a := batch[i].Address();
            a in ServerList.View(batch) && ServerList.View(batch)[a] == batch[i]
  {
    if i > 0 {
      assert batch[1..][i - 1] == batch[i];
      assert forall j :: 0 <= j < i - 1 ==> batch[1..][j] == batch[j + 1];
      FirstRowAnswers(batch[1..], i - 1);
    }
  }

  /**
   Rows of a sweep answer at the endpoints nobody owns. Elsewhere the list answers as before, except
   that a final report withdraws what it does not name.
   */
  lemma SweepAnswers(
    s: System, permit: Permit, batch: seq<Server>, replace: bool, a: SocketAddr, game: TargetGame)
    requires permit in s.permits && NothingUnclaimed(s.ledger)
    ensures var t := Next(s, Sweep(permit, batch, replace));
            var before, after := s.ledger.Find(Some(a), game), t.ledger.Find(Some(a), game);
            var named := exists row :: row in batch && row.Address() == a;
            && t.ledger.checked == s.ledger.checked && t.ledger.joining == s.ledger.joining
            && (!s.ledger.Accepts(permit.ticket) ==> t == s)
            && (s.ledger.Accepts(permit.ticket) && game == permit.ticket.game ==>
                  && (a in s.ledger.checked || (!named && !replace) ==> after == before)
                  && (a !in s.ledger.checked && !named && replace ==> after == Failure(Gone))
                  && (a !in s.ledger.checked ==>
                        forall i :: IsFirstRow(batch, i, a) ==> after == Success(batch[i])))
            && (s.ledger.Accepts(permit.ticket) && game != permit.ticket.game ==>
                  after == Failure(Gone))
  {
    ServerList.ViewKeys(batch);
    forall i | IsFirstRow(batch, i, a)
      ensures a in ServerList.View(batch) && ServerList.View(batch)[a] == batch[i]
    {
      FirstRowAnswers(batch, i);
    }
  }

  /**
   A check that is still wanted owns what it asked about. Without an answer for this game the
   endpoint asked about is gone; with one, the server answers at its own endpoint, which is owned
   too. Every other endpoint answers as before.
   */
  lemma CheckAnswers(
    s: System, permit: Permit, asked: SocketAddr, outcome: Option<Server>, a: SocketAddr,
    game: TargetGame)
    requires permit in s.permits && NothingUnclaimed(s.ledger)
    ensures var t := Next(s, Check(permit, asked, outcome));
            var before, after := s.ledger.Find(Some(a), game), t.ledger.Find(Some(a), game);
            var answered := outcome.Some? && (outcome.value.gameFamily.None?
                                              || outcome.value.gameFamily.value == permit.ticket.game);
            && t.ledger.joining == s.ledger.joining
            && (!s.ledger.Accepts(permit.ticket) ==> t == s)
            && (s.ledger.Accepts(permit.ticket) ==>
                  && t.ledger.checked == s.ledger.checked + {asked}
                                         + (if answered then {outcome.value.Address()} else {})
                  && (game != permit.ticket.game ==> after == Failure(Gone))
                  && (game == permit.ticket.game ==>
                        after == if answered && a == outcome.value.Address()
                                 then Success(outcome.value)
                                 else if !answered && a == asked then Failure(Gone)
                                 else before))
  {
  }

  /** A join answers what a lookup does, changes no answer, and owns the endpoint it found. */
  lemma JoinAnswers(
    s: System, id: nat, address: Option<SocketAddr>, wanted: TargetGame, a: Option<SocketAddr>,
    game: TargetGame)
    requires id !in s.owners
    ensures var t := Next(s, Join(id, address, wanted));
            && t.ledger.Find(a, game) == s.ledger.Find(a, game)
            && (s.ledger.Find(address, wanted).Failure? ==> t == s)
            && (s.ledger.Find(address, wanted).Success? ==>
                  && t.ledger.checked == s.ledger.checked + {address.value}
                  && id in t.owners && t.owners[id].ownership.address == address.value
                  && t.owners[id].sweeps == s.sweeps)
  {
  }

  /** The end of a join changes no answer, and its endpoint stays owned until the next sweep begins. */
  lemma DropAnswers(s: System, id: nat, a: Option<SocketAddr>, game: TargetGame)
    requires Inv(s) && id in s.owners && s.sweeps < GENERATIONS
    ensures var t := Next(s, Drop(id));
            t.ledger.Find(a, game) == s.ledger.Find(a, game) && t.ledger.checked == s.ledger.checked
  {
  }

  /** A foreground sweep withdraws every server, owns nothing, and its own ticket is honoured. */
  lemma SweepBeginsAnew(s: System, wanted: TargetGame, a: SocketAddr, game: TargetGame)
    requires s.ledger.generation == s.sweeps % GENERATIONS
    ensures var t := Next(s, BeginSweep(wanted));
            && t.ledger.Find(Some(a), game) == Failure(Gone) && t.ledger.checked == {}
            && exists permit :: && permit in t.permits && permit.ticket.game == wanted
                                && permit.sweeps == t.sweeps && t.ledger.Accepts(permit.ticket)
  {
    var t := Next(s, BeginSweep(wanted));
    assert Permit(Ticket(wanted, t.ledger.generation), t.sweeps) in t.permits;
  }

  /**
   A background sweep of the listed game keeps every answer, and releases what checks own: after it
   an endpoint is owned exactly when a join of it is running.
   */
  lemma BackgroundReleasesChecks(s: System, wanted: TargetGame, a: SocketAddr, game: TargetGame)
    requires Inv(s) && s.ledger.game == Some(wanted)
    ensures var t := Next(s, BeginBackground(wanted));
            && t.ledger.Find(Some(a), game) == s.ledger.Find(Some(a), game)
            && (a in t.ledger.checked <==> LiveAt(s.owners, s.sweeps, a) != {})
            && exists permit :: && permit in t.permits && permit.ticket.game == wanted
                                && permit.sweeps == s.sweeps && t.ledger.Accepts(permit.ticket)
  {
    var t := Next(s, BeginBackground(wanted));
    assert CountedAt(s.ledger.joining, LiveAt(s.owners, s.sweeps, a), a);
    assert Permit(Ticket(wanted, s.ledger.generation), s.sweeps) in t.permits;
  }

  /** A lookup only answers a server of the endpoint and the game that were asked for. */
  lemma FoundIsWanted(steps: seq<Step>, address: Option<SocketAddr>, game: TargetGame)
    returns (i: nat)
    requires Possible(INITIAL, steps) && Run(INITIAL, steps).sweeps < GENERATIONS
    requires Run(INITIAL, steps).ledger.Find(address, game).Success?
    ensures var t := Run(INITIAL, steps);
            && i < |steps| && address.Some? && t.ledger.game == Some(game)
            && var found := t.ledger.Find(address, game).value;
               && DeliveredBy(t, steps, i, address.value, found)
               && found.endpoint.address == address.value.ip && found.gamePort == address.value.port
               && (found.gameFamily.Some? && steps[i].Check? ==> found.gameFamily.value == game)
  {
    i := ListedServersAreCurrent(steps, address.value);
  }

  /** No sweep begins, and no check is answered for this game from `a`. */
  predicate LeavesGone(step: Step, a: SocketAddr) {
    match step
    case BeginSweep(_) => false
    case BeginBackground(_) => false
    case Check(permit, _, outcome) =>
      outcome.None? || outcome.value.Address() != a
      || outcome.value.AnsweredForAnotherGame(permit.ticket.game).Some?
    case _ => true
  }

  /**
   A server that a check found gone stays gone, whatever is streamed or reported, until the next
   sweep begins or a check is answered from that endpoint.
   */
  lemma {:induction false} GoneStaysGone(
    s: System, steps: seq<Step>, a: SocketAddr, game: TargetGame)
    requires Inv(s) && Possible(s, steps) && s.sweeps < GENERATIONS
    requires s.ledger.game.Some? && a in s.ledger.checked && a !in s.ledger.view
    requires forall i :: 0 <= i < |steps| ==> LeavesGone(steps[i], a)
    ensures Run(s, steps).ledger.Find(Some(a), game) == Failure(Gone)
    ensures a in Run(s, steps).ledger.checked && a !in Run(s, steps).ledger.view
    ensures Run(s, steps).ledger.game.Some?
    decreases |steps|
  {
    if steps != [] {
      var last := |steps| - 1;
      assert forall i :: 0 <= i < last ==> steps[..last][i] == steps[i];
      GoneStaysGone(s, steps[..last], a, game);
      assert LeavesGone(steps[last], a);
    }
  }

  /** The whole story of a check that fails: its endpoint is gone at once, and stays gone. */
  lemma FailedCheckForgets(
    s: System, permit: Permit, asked: SocketAddr, outcome: Option<Server>, steps: seq<Step>,
    game: TargetGame)
    requires Inv(s) && permit in s.permits && s.ledger.Accepts(permit.ticket)
    requires s.sweeps < GENERATIONS
    requires outcome.None? || (outcome.value.gameFamily.Some?
                               && outcome.value.gameFamily.value != permit.ticket.game)
    requires Possible(Next(s, Check(permit, asked, outcome)), steps)
    requires forall i :: 0 <= i < |steps| ==> LeavesGone(steps[i], asked)
    ensures Run(Next(s, Check(permit, asked, outcome)), steps).ledger.Find(Some(asked), game)
            == Failure(Gone)
  {
    var checked := Next(s, Check(permit, asked, outcome));
    NextKeepsIssued(s, Check(permit, asked, outcome));
    NextKeepsCounts(s, Check(permit, asked, outcome));
    GoneStaysGone(checked, steps, asked, game);
  }

  /** The whole story of a check that is answered: its server is found until a sweep or another check. */
  lemma AnsweredCheckIsFound(
    s: System, permit: Permit, asked: SocketAddr, server: Server, steps: seq<Step>)
    requires Inv(s) && permit in s.permits && s.ledger.Accepts(permit.ticket)
    requires s.sweeps < GENERATIONS
    requires server.gameFamily.None? || server.gameFamily.value == permit.ticket.game
    requires Possible(Next(s, Check(permit, asked, Some(server))), steps)
    requires forall i :: 0 <= i < |steps| ==>
               Leaves(steps[i], server.Address()) && !steps[i].BeginBackground?
    ensures Run(Next(s, Check(permit, asked, Some(server))), steps)
              .ledger.Find(Some(server.Address()), permit.ticket.game) == Success(server)
  {
    var checked := Next(s, Check(permit, asked, Some(server)));
    NextKeepsIssued(s, Check(permit, asked, Some(server)));
    NextKeepsCounts(s, Check(permit, asked, Some(server)));
    ClaimLastsUntilNextSweep(checked, steps, server.Address());
  }

  // ----- The counter wraps -----

  /** Begin `n` foreground sweeps for `game`. */
  function BeginSweeps(ledger: Ledger, game: TargetGame, n: nat): Ledger
    decreases n
  {
    if n == 0 then ledger else BeginSweeps(ledger, game, n - 1).BeginSweep(game)
  }

  lemma {:induction false} GenerationAfter(ledger: Ledger, game: TargetGame, n: nat)
    requires ledger.generation < GENERATIONS && ledger.game == Some(game)
    ensures BeginSweeps(ledger, game, n).generation == (ledger.generation + n) % GENERATIONS
    ensures BeginSweeps(ledger, game, n).game == Some(game)
    decreases n
  {
    if n != 0 {
      GenerationAfter(ledger, game, n - 1);
      SuccModulo(ledger.generation + n - 1);
    }
  }

  /**
   The bound on the number of sweeps cannot be dropped: after `n` foreground sweeps of the same
   game a ticket is honoured again exactly when `n` is a multiple of 2^64.
   */
  lemma {:induction false} RetiredTicketReturnsOnWrap(ledger: Ledger, game: TargetGame, n: nat)
    requires ledger.generation < GENERATIONS && ledger.game == Some(game)
    ensures BeginSweeps(ledger, game, n).Accepts(Ticket(game, ledger.generation))
            <==> n % GENERATIONS == 0
  {
    GenerationAfter(ledger, game, n);
  }

  lemma {:induction false} RunOfConcat(s: System, first: seq<Step>, second: seq<Step>)
    requires Possible(s, first) && Possible(Run(s, first), second)
    ensures Possible(s, first + second)
    ensures Run(s, first + second) == Run(Run(s, first), second)
    decreases |second|
  {
    hide Next, Enabled;
    if second == [] {
      assert first + second == first;
    } else {
      var last := |second| - 1;
      RunOfConcat(s, first, second[..last]);
      assert (first + second)[..|first + second| - 1] == first + second[..last];
      assert (first + second)[|first + second| - 1] == second[last];
    }
  }

  /** A run can be followed by any step that is enabled at its end. */
  lemma RunOneMore(s: System, steps: seq<Step>, step: Step)
    requires Possible(s, steps) && Enabled(Run(s, steps), step)
    ensures Possible(s, steps + [step])
    ensures Run(s, steps + [step]) == Next(Run(s, steps), step)
  {
    assert (steps + [step])[..|steps|] == steps;
  }

  function Sweeps(game: TargetGame, n: nat): seq<Step> {
    if n == 0 then [] else Sweeps(game, n - 1) + [BeginSweep(game)]
  }

  lemma {:induction false} RunOfSweeps(s: System, game: TargetGame, n: nat)
    requires s.ledger.generation < GENERATIONS && s.ledger.game == Some(game)
    ensures Possible(s, Sweeps(game, n))
    ensures var t := Run(s, Sweeps(game, n));
            && t.ledger == BeginSweeps(s.ledger, game, n)
            && t.sweeps == s.sweeps + n && t.owners == s.owners
            && (n > 0 ==> Permit(Ticket(game, t.ledger.generation), t.sweeps) in t.permits)
  {
    hide Possible, Run;
    NothingRuns(s);
    if n > 0 {
      RunOfSweeps(s, game, n - 1);
      RunOneMore(s, Sweeps(game, n - 1), BeginSweep(game));
    }
  }

  /** A server is listed for `game` under `permit`, and a join of it begins. */
  function ListAndJoin(permit: Permit, server: Server, id: nat): seq<Step> {
    [Sweep(permit, [server], true), Join(id, Some(server.Address()), permit.ticket.game)]
  }

  lemma ListedAndJoined(s: System, permit: Permit, server: Server, id: nat)
    requires permit in s.permits && id !in s.owners && s.ledger.checked == {}
    requires s.ledger.Accepts(permit.ticket) && s.ledger.joining == map[]
    ensures var a := server.Address();
            && Possible(s, ListAndJoin(permit, server, id))
            && Run(s, ListAndJoin(permit, server, id))
               == System(Ledger(Some(permit.ticket.game), s.ledger.generation, map[a := server],
                                {a}, map[a := 1]),
                         s.sweeps, s.permits,
                         s.owners[id := Owner(Ownership(Ticket(permit.ticket.game,
                                                               s.ledger.generation), a), s.sweeps)])
  {
    var steps := ListAndJoin(permit, server, id);
    assert steps[..1] == [steps[0]] && steps[..1][..0] == [] && steps[..0] == [];
    assert Run(s, []) == s;
    assert ServerList.View([server]) == map[server.Address() := server];
    RunOneMore(s, [], steps[0]);
    RunOneMore(s, [steps[0]], steps[1]);
    assert [] + [steps[0]] == [steps[0]] && [steps[0]] + [steps[1]] == steps;
  }

  /**
   The bound is the best there is. An ownership kept through 2^64 foreground sweeps is honoured
   again: dropping it takes away the count of another join, which is still running.
   */
  lemma WrapMiscountsJoins(game: TargetGame, server: Server) returns (steps: seq<Step>)
    ensures Possible(INITIAL, steps) && Run(INITIAL, steps).sweeps == GENERATIONS
    ensures !JoinsCounted(Run(INITIAL, steps))
  {
    hide Possible, Run, ListAndJoin, Sweeps, BeginSweeps, JoinsCounted;
    var a, ticket := server.Address(), Ticket(game, 0);
    var taken := [TakeTicket(game)];
    NothingRuns(INITIAL);
    RunOneMore(INITIAL, [], TakeTicket(game));
    assert [] + taken == taken;
    var first := ListAndJoin(Permit(ticket, 0), server, 0);
    ListedAndJoined(Run(INITIAL, taken), Permit(ticket, 0), server, 0);
    RunOfConcat(INITIAL, taken, first);
    var joined := Run(INITIAL, taken + first);
    var sweeps := Sweeps(game, GENERATIONS);
    RunOfSweeps(joined, game, GENERATIONS);
    GenerationAfter(joined.ledger, game, GENERATIONS);
    SweptIsEmpty(joined.ledger, game, GENERATIONS);
    RunOfConcat(INITIAL, taken + first, sweeps);
    var swept := Run(INITIAL, taken + first + sweeps);
    var permit := Permit(ticket, GENERATIONS);
    var second := ListAndJoin(permit, server, 1);
    ListedAndJoined(swept, permit, server, 1);
    RunOfConcat(INITIAL, taken + first + sweeps, second);
    steps := taken + first + sweeps + second;
    var both := Run(INITIAL, steps);
    RunOneMore(INITIAL, steps, Drop(0));
    steps := steps + [Drop(0)];
    JoinMiscounted(Next(both, Drop(0)), 1, a);
  }

  lemma NothingRuns(s: System)
    ensures Possible(s, []) && Run(s, []) == s
  {
  }

  lemma SweptIsEmpty(ledger: Ledger, game: TargetGame, n: nat)
    requires n > 0
    ensures var after := BeginSweeps(ledger, game, n);
            after == Ledger(Some(game), after.generation, map[], {}, map[])
  {
  }

  lemma JoinMiscounted(s: System, id: nat, a: SocketAddr)
    requires id in LiveAt(s.owners, s.sweeps, a) && a !in s.ledger.joining
    ensures !JoinsCounted(s)
  {
    assert !CountedAt(s.ledger.joining, LiveAt(s.owners, s.sweeps, a), a);
  }

  // ----- The vector under any interleaving -----

  /** The list itself, driven through any possible run, answers every lookup as the map does. */
  method Replay(steps: seq<Step>, address: Option<SocketAddr>, game: TargetGame)
    returns (listing: ServerList.Listing, found: Result<Server, FindError>)
    requires Possible(INITIAL, steps)
    ensures fresh(listing) && listing.Valid()
    ensures listing.Contents() == Run(INITIAL, steps).ledger
    ensures found == Run(INITIAL, steps).ledger.Find(address, game)
  {
    listing := new ServerList.Listing();
    assert steps[..|steps|] == steps;
    PrefixPossible(steps, 0);
    for i := 0 to |steps|
      invariant fresh(listing) && listing.Valid()
      invariant Possible(INITIAL, steps[..i])
      invariant listing.Contents() == Run(INITIAL, steps[..i]).ledger
    {
      PrefixPossible(steps, i + 1);
      assert steps[..i + 1][..i] == steps[..i];
      TakeStep(listing, Run(INITIAL, steps[..i]), steps[i]);
    }
    found := listing.Find(address, game);
  }

  lemma {:induction false} PrefixPossible(steps: seq<Step>, n: nat)
    requires n <= |steps| && Possible(INITIAL, steps)
    ensures Possible(INITIAL, steps[..n])
    decreases |steps|
  {
    if n < |steps| {
      PrefixPossible(steps[..|steps| - 1], n);
      assert steps[..|steps| - 1][..n] == steps[..n];
    } else {
      assert steps[..n] == steps;
    }
  }

  method TakeStep(listing: ServerList.Listing, s: System, step: Step)
    requires listing.Valid() && listing.Contents() == s.ledger && Enabled(s, step)
    modifies listing
    ensures listing.Valid() && listing.Contents() == Next(s, step).ledger
  {
    match step {
      case BeginSweep(game) => var _ := listing.BeginSweep(game);
      case BeginBackground(game) => var _ := listing.TryBackgroundSweep(game);
      case TakeTicket(game) => var _ := listing.TakeTicket(game);
      case Sweep(permit, batch, replace) =>
        var _ := listing.UpdateSweep(permit.ticket, batch, replace);
      case Check(permit, asked, outcome) =>
        var _ := listing.SettleCheck(permit.ticket, asked, outcome);
      case Join(id, address, game) => var _ := listing.FindForJoin(address, game);
      case Drop(id) => listing.Release(s.owners[id].ownership);
    }
  }
}
