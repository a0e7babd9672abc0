/**
 The launcher's mutex-protected server list: a vector searched from the front, a set of owned
 endpoints and a map of running joins, all changed in place. Every method is one lock scope, and
 each is proved to be the corresponding change of the map in `Ledgers`.
 */
module ServerList {
  import opened Common
  import opened Discovery
  import opened Ledgers

  /** What the vector answers: the first server listed at an endpoint. */
  function View(servers: seq<Server>): map<SocketAddr, Server> {
    if servers == [] then map[]
    else View(servers[1..])[servers[0].Address() := servers[0]]
  }

  function Retain(servers: seq<Server>, keep: SocketAddr -> bool): seq<Server> {
    if servers == [] then []
    else (if keep(servers[0].Address()) then [servers[0]] else []) + Retain(servers[1..], keep)
  }

  function In(addresses: set<SocketAddr>): SocketAddr -> bool {
    a => a in addresses
  }

  function NotIn(addresses: set<SocketAddr>): SocketAddr -> bool {
    a => a !in addresses
  }

  lemma {:induction false} ViewOfRetained(servers: seq<Server>, keep: SocketAddr -> bool)
    ensures View(Retain(servers, keep)) == map a | a in View(servers) && keep(a) :: View(servers)[a]
  {
    if servers == [] {
    } else {
      var head, rest := servers[0], Retain(servers[1..], keep);
      ViewOfRetained(servers[1..], keep);
      if keep(head.Address()) {
        assert ([head] + rest)[1..] == rest;
      } else {
        assert [] + rest == rest;
      }
    }
  }

  /** Rows appended at the back only answer for endpoints not listed before them. */
  lemma {:induction false} ViewOfAppended(front: seq<Server>, back: seq<Server>)
    ensures View(front + back) == View(back) + View(front)
  {
    if front == [] {
      assert front + back == back;
    } else {
      ViewOfAppended(front[1..], back);
      assert (front + back)[1..] == front[1..] + back;
    }
  }

  /** An endpoint is in the view exactly when some row carries it. */
  lemma {:induction false} ViewKeys(servers: seq<Server>)
    ensures View(servers).Keys == set s | s in servers :: s.Address()
  {
    if servers != [] {
      ViewKeys(servers[1..]);
      assert servers == [servers[0]] + servers[1..];
    }
  }

  function Endpoint(): Server -> SocketAddr {
    (s: Server) => s.Address()
  }

  /** No endpoint is listed twice. */
  ghost predicate OncePerEndpoint(servers: seq<Server>) {
    DistinctBy(servers, Endpoint())
  }

  class Listing {
    var game: Option<TargetGame>
    var generation: nat
    var servers: seq<Server>
    var checked: set<SocketAddr>
    var joining: map<SocketAddr, nat>

    ghost function Contents(): Ledger
      reads this
    {
      Ledger(game, generation, View(servers), checked, joining)
    }

    ghost predicate Valid()
      reads this
    {
      Contents().Sound()
    }

    constructor ()
      ensures Valid() && Contents() == EMPTY
    {
      game, generation, servers, checked, joining := None, 0, [], {}, map[];
    }

    /** The first matching row, when the list was gathered for this game. */
    method Find(address: Option<SocketAddr>, wanted: TargetGame)
      returns (found: Result<Server, FindError>)
      ensures found == Contents().Find(address, wanted)
    {
      if address.None? {
        return Failure(Unreadable);
      }
      if game != Some(wanted) {
        return Failure(Gone);
      }
      for i := 0 to |servers|
        invariant address.value in View(servers) <==> address.value in View(servers[i..])
        invariant address.value in View(servers) ==>
                    View(servers)[address.value] == View(servers[i..])[address.value]
      {
        assert servers[i..][1..] == servers[i + 1..];
        if servers[i].Address() == address.value {
          return Success(servers[i]);
        }
      }
      return Failure(Gone);
    }

    method FindForJoin(address: Option<SocketAddr>, wanted: TargetGame)
      returns (found: Result<(Server, Ownership), FindError>)
      requires Valid()
      modifies this
      ensures Valid() && Contents() == old(Contents()).Join(address, wanted)
      ensures var spec := old(Contents()).Find(address, wanted);
              found == if spec.Failure? then Failure(spec.error)
                       else Success((spec.value,
                                     Ownership(Ticket(wanted, old(generation)), address.value)))
    {
      var server := Find(address, wanted);
      if server.Failure? {
        return Failure(server.error);
      }
      var a := server.value.Address();
      ViewAddresses(servers);
      checked := checked + {a};
      joining := joining[a := (if a in joining then joining[a] else 0) + 1];
      found := Success((server.value, Ownership(Ticket(wanted, generation), a)));
    }

    method BeginSweep(wanted: TargetGame) returns (ticket: Ticket)
      requires Valid()
      modifies this
      ensures Valid() && Contents() == old(Contents()).BeginSweep(wanted)
      ensures ticket == Ticket(wanted, generation)
    {
      generation := (generation + 1) % GENERATIONS;
      game := Some(wanted);
      servers, checked, joining := [], {}, map[];
      ticket := Ticket(wanted, generation);
    }

    /** The first lock scope of a background sweep: it gives up when another game is listed. */
    method TryBackgroundSweep(wanted: TargetGame) returns (ticket: Option<Ticket>)
      requires Valid()
      modifies this
      ensures Valid() && Contents() == old(Contents()).BeginBackground(wanted)
      ensures ticket == if old(game) == Some(wanted) then Some(Ticket(wanted, generation)) else None
    {
      if game != Some(wanted) {
        return None;
      }
      checked := {};
      checked := checked + joining.Keys;
      ticket := Some(Ticket(wanted, generation));
    }

    /** Both lock scopes, when nothing else takes the lock between them. */
    method BeginBackgroundSweep(wanted: TargetGame) returns (ticket: Ticket)
      requires Valid()
      modifies this
      ensures Valid() && ticket == Ticket(wanted, generation)
      ensures Contents() == if old(game) == Some(wanted) then old(Contents()).BeginBackground(wanted)
                            else old(Contents()).BeginSweep(wanted)
    {
      var same := TryBackgroundSweep(wanted);
      if same.Some? {
        return same.value;
      }
      ticket := BeginSweep(wanted);
    }

    method TakeTicket(wanted: TargetGame) returns (ticket: Ticket)
      ensures ticket == Ticket(wanted, generation)
    {
      ticket := Ticket(wanted, generation);
    }

    method UpdateSweep(ticket: Ticket, batch: seq<Server>, replace: bool) returns (applied: bool)
      requires Valid()
      modifies this
      ensures Valid() && Contents() == old(Contents()).Sweep(ticket, View(batch), replace)
      ensures applied == old(Contents().Accepts(ticket))
      ensures old(OncePerEndpoint(servers)) && OncePerEndpoint(batch) ==> OncePerEndpoint(servers)
    {
      if generation != ticket.generation || (game.Some? && game.value != ticket.game) {
        return false;
      }
      game := Some(ticket.game);
      var incoming := Retain(batch, NotIn(checked));
      if replace {
        ReplacedRows(servers, batch, checked);
        servers := Retain(servers, In(checked));
      } else {
        var replaced := set s | s in incoming :: s.Address();
        StreamedRows(servers, batch, checked, replaced);
        servers := Retain(servers, NotIn(replaced));
      }
      servers := servers + incoming;
      applied := true;
    }

    /** Bring the outcome of a direct check into the list, unless its ticket has been retired. */
    method SettleCheck(ticket: Ticket, asked: SocketAddr, outcome: Option<Server>)
      returns (applied: bool)
      requires Valid()
      modifies this
      ensures Valid() && Contents() == old(Contents()).Check(ticket, asked, outcome)
      ensures applied == old(Contents().Accepts(ticket))
      ensures !applied ==> Contents() == old(Contents())
      ensures applied ==>
                var answered := && outcome.Some?
                                && outcome.value.AnsweredForAnotherGame(ticket.game).None?;
                && asked in checked
                && (answered ==>
                      Contents().Find(Some(outcome.value.Address()), ticket.game)
                      == Success(outcome.value))
                && (!answered ==> Contents().Find(Some(asked), ticket.game) == Failure(Gone))
                && forall a :: a != (if answered then outcome.value.Address() else asked) ==>
                     && (a in View(servers) <==> a in old(View(servers)))
                     && (a in View(servers) ==> View(servers)[a] == old(View(servers))[a])
      ensures old(OncePerEndpoint(servers)) ==> OncePerEndpoint(servers)
    {
      if generation != ticket.generation || (game.Some? && game.value != ticket.game) {
        return false;
      }
      game := Some(ticket.game);
      applied := true;
      if outcome.None? || outcome.value.AnsweredForAnotherGame(ticket.game).Some? {
        checked := checked + {asked};
        Forget(asked);
      } else {
        checked := checked + {asked, outcome.value.Address()};
        Merge(outcome.value);
      }
    }

    /** The checked server becomes the one row of its endpoint. */
    method Merge(server: Server)
      modifies this`servers
      ensures View(servers) == old(View(servers))[server.Address() := server]
      ensures old(OncePerEndpoint(servers)) ==> OncePerEndpoint(servers)
    {
      MergedRows(servers, server);
      servers := Retain(servers, NotIn({server.Address()}));
      servers := servers + [server];
    }

    method Forget(address: SocketAddr)
      modifies this`servers
      ensures View(servers) == old(View(servers)) - {address}
      ensures old(OncePerEndpoint(servers)) ==> OncePerEndpoint(servers)
    {
      ViewOfRetained(servers, NotIn({address}));
      RetainedDistinct(servers, NotIn({address}));
      servers := Retain(servers, NotIn({address}));
    }

    /** A join has ended. The decrement cannot underflow because every count is positive. */
    method Release(ownership: Ownership)
      requires Valid()
      modifies this
      ensures Valid() && Contents() == old(Contents()).Drop(ownership)
    {
      if generation != ownership.ticket.generation
         || (game.Some? && game.value != ownership.ticket.game) {
        return;
      }
      game := Some(ownership.ticket.game);
      var a := ownership.address;
      if a in joining {
        var count := joining[a] - 1;
        joining := joining[a := count];
        if count == 0 {
          joining := joining - {a};
        }
      }
    }
  }

  lemma {:induction false} ViewAddresses(servers: seq<Server>)
    ensures forall a :: a in View(servers) ==> View(servers)[a].Address() == a
  {
    if servers != [] {
      ViewAddresses(servers[1..]);
    }
  }

  lemma {:induction false} RetainedDistinct(servers: seq<Server>, keep: SocketAddr -> bool)
    ensures forall s :: s in Retain(servers, keep) <==> s in servers && keep(s.Address())
    ensures OncePerEndpoint(servers) ==> OncePerEndpoint(Retain(servers, keep))
  {
    if servers != [] {
      RetainedDistinct(servers[1..], keep);
      assert servers == [servers[0]] + servers[1..];
    }
  }

  lemma AppendedDistinct(front: seq<Server>, back: seq<Server>)
    requires OncePerEndpoint(front) && OncePerEndpoint(back)
    requires forall s, t :: s in front && t in back ==> s.Address() != t.Address()
    ensures OncePerEndpoint(front + back)
  {
    forall i, j | 0 <= i < j < |front + back|
      ensures (front + back)[i].Address() != (front + back)[j].Address()
    {
      if i < |front| <= j {
        assert front[i] in front && back[j - |front|] in back;
      }
    }
  }

  /** A final report takes over every endpoint that is not owned. */
  lemma ReplacedRows(servers: seq<Server>, batch: seq<Server>, owned: set<SocketAddr>)
    ensures var after := Retain(servers, In(owned)) + Retain(batch, NotIn(owned));
            && View(after) == (map a | a in View(servers) && a in owned :: View(servers)[a])
                              + (View(batch) - owned)
            && (OncePerEndpoint(servers) && OncePerEndpoint(batch) ==> OncePerEndpoint(after))
  {
    var kept, incoming := Retain(servers, In(owned)), Retain(batch, NotIn(owned));
    assert View(kept + incoming) == (map a | a in View(servers) && a in owned :: View(servers)[a])
                                    + (View(batch) - owned) by {
      ViewOfRetained(servers, In(owned));
      ViewOfRetained(batch, NotIn(owned));
      ViewOfAppended(kept, incoming);
      OwnedApart(View(servers), View(batch), owned);
    }
    if OncePerEndpoint(servers) && OncePerEndpoint(batch) {
      RetainedDistinct(servers, In(owned));
      RetainedDistinct(batch, NotIn(owned));
      AppendedDistinct(kept, incoming);
    }
  }

  lemma OwnedApart(listed: map<SocketAddr, Server>, report: map<SocketAddr, Server>,
                   owned: set<SocketAddr>)
    ensures var kept := map a | a in listed && In(owned)(a) :: listed[a];
            var incoming := map a | a in report && NotIn(owned)(a) :: report[a];
            incoming + kept == (map a | a in listed && a in owned :: listed[a]) + (report - owned)
  {
  }

  /** Streamed rows take over exactly the endpoints they name, owned ones excepted. */
  lemma StreamedRows(servers: seq<Server>, batch: seq<Server>, owned: set<SocketAddr>,
                     replaced: set<SocketAddr>)
    requires replaced == set s | s in Retain(batch, NotIn(owned)) :: s.Address()
    ensures var after := Retain(servers, NotIn(replaced)) + Retain(batch, NotIn(owned));
            && View(after) == View(servers) + (View(batch) - owned)
            && (OncePerEndpoint(servers) && OncePerEndpoint(batch) ==> OncePerEndpoint(after))
  {
    var kept, incoming := Retain(servers, NotIn(replaced)), Retain(batch, NotIn(owned));
    assert View(kept + incoming) == View(servers) + (View(batch) - owned) by {
      ViewKeys(incoming);
      ViewOfRetained(servers, NotIn(replaced));
      ViewOfRetained(batch, NotIn(owned));
      ViewOfAppended(kept, incoming);
      ReplacedApart(View(servers), View(batch), owned, replaced);
    }
    if OncePerEndpoint(servers) && OncePerEndpoint(batch) {
      RetainedDistinct(servers, NotIn(replaced));
      RetainedDistinct(batch, NotIn(owned));
      AppendedDistinct(kept, incoming);
    }
  }

  lemma ReplacedApart(listed: map<SocketAddr, Server>, report: map<SocketAddr, Server>,
                      owned: set<SocketAddr>, replaced: set<SocketAddr>)
    requires replaced == (map a | a in report && NotIn(owned)(a) :: report[a]).Keys
    ensures var kept := map a | a in listed && NotIn(replaced)(a) :: listed[a];
            var incoming := map a | a in report && NotIn(owned)(a) :: report[a];
            incoming + kept == listed + (report - owned)
  {
  }

  lemma MergedRows(servers: seq<Server>, server: Server)
    ensures var after := Retain(servers, NotIn({server.Address()})) + [server];
            && View(after) == View(servers)[server.Address() := server]
            && (OncePerEndpoint(servers) ==> OncePerEndpoint(after))
  {
    hide View, Retain, OncePerEndpoint;
    var endpoint := server.Address();
    var kept := Retain(servers, NotIn({endpoint}));
    ViewOfRetained(servers, NotIn({endpoint}));
    ViewOfAppended(kept, [server]);
    SingleRow(server);
    assert View(kept + [server]) == View(servers)[endpoint := server];
    if OncePerEndpoint(servers) {
      RetainedDistinct(servers, NotIn({endpoint}));
      AppendedDistinct(kept, [server]);
    }
  }

  lemma SingleRow(server: Server)
    ensures View([server]) == map[server.Address() := server] && OncePerEndpoint([server])
  {
  }
}
