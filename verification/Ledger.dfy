/**
 The shared server list as a plain map from game endpoints to servers.

 Each function is the whole effect of one lock scope of the launcher's list, told without the
 vector the program keeps: which server an endpoint resolves to, which endpoints a direct check or
 a join owns against sweeps, and how many joins are running at each.
 */
module Ledgers {
  import opened Common
  import opened Discovery

  /** The list generation is a 64-bit counter that wraps around. */
  const GENERATIONS: nat := 0x1_0000_0000_0000_0000

  datatype Ticket = Ticket(game: TargetGame, generation: nat)

  datatype Ownership = Ownership(ticket: Ticket, address: SocketAddr)

  datatype FindError = Unreadable | Gone

  datatype Ledger = Ledger(
    game: Option<TargetGame>,
    generation: nat,
    view: map<SocketAddr, Server>,
    checked: set<SocketAddr>,
    joining: map<SocketAddr, nat>)
  {
    /** Every join in progress owns its endpoint, and only endpoints with a join are counted. */
    predicate Sound() {
      && joining.Keys <= checked
      && forall a :: a in joining ==> joining[a] > 0
    }

    /** `None` stands for an address text that does not parse. */
    function Find(address: Option<SocketAddr>, wanted: TargetGame): Result<Server, FindError> {
      if address.None? then Failure(Unreadable)
      else if game != Some(wanted) || address.value !in view then Failure(Gone)
      else Success(view[address.value])
    }

    predicate Accepts(ticket: Ticket) {
      generation == ticket.generation && (game.None? || game.value == ticket.game)
    }

    function BeginSweep(wanted: TargetGame): Ledger {
      Ledger(Some(wanted), (generation + 1) % GENERATIONS, map[], {}, map[])
    }

    /** A background sweep of the listed game keeps the list; only running joins stay owned. */
    function BeginBackground(wanted: TargetGame): Ledger {
      if game == Some(wanted) then this.(checked := joining.Keys) else this
    }

    /** The endpoints a sweep may not touch keep their servers, whatever the sweep reports. */
    function Sweep(ticket: Ticket, report: map<SocketAddr, Server>, replace: bool): Ledger {
      if !Accepts(ticket) then this
      else
        var kept := if replace then map a | a in view && a in checked :: view[a] else view;
        this.(game := Some(ticket.game), view := kept + (report - checked))
    }

    /** A direct check that was asked about `asked` and got `outcome` back. */
    function Check(ticket: Ticket, asked: SocketAddr, outcome: Option<Server>): Ledger {
      if !Accepts(ticket) then this
      else if outcome.None? || outcome.value.AnsweredForAnotherGame(ticket.game).Some? then
        this.(game := Some(ticket.game), checked := checked + {asked}, view := view - {asked})
      else
        var answered := outcome.value.Address();
        this.(game := Some(ticket.game),
              checked := checked + {asked, answered},
              view := view[answered := outcome.value])
    }

    function Join(address: Option<SocketAddr>, wanted: TargetGame): Ledger {
      if Find(address, wanted).Failure? then this
      else
        var a := address.value;
        this.(checked := checked + {a},
              joining := joining[a := (if a in joining then joining[a] else 0) + 1])
    }

    /** In a sound list the count is at least one, so the program's decrement never underflows. */
    function Drop(ownership: Ownership): Ledger {
      var a := ownership.address;
      if !Accepts(ownership.ticket) then this
      else
        var claimed := this.(game := Some(ownership.ticket.game));
        if a !in joining then claimed
        else if joining[a] <= 1 then claimed.(joining := joining - {a})
        else claimed.(joining := joining[a := joining[a] - 1])
    }
  }

  const EMPTY: Ledger := Ledger(None, 0, map[], {}, map[])
}
