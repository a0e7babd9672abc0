/** The part of the discovery model the launcher's decisions depend on. */
module Discovery {
  import opened Common

  datatype TargetGame = AlliedAssault | Spearhead | Breakthrough

  /** A game endpoint: what a join connects to and what identifies a listed server. */
  datatype SocketAddr = SocketAddr(ip: nat, port: nat)

  datatype MasterEndpoint = MasterEndpoint(address: nat, queryPort: nat)

  datatype Server = Server(
    endpoint: MasterEndpoint,
    gamePort: nat,
    hostname: string,
    gameFamily: Option<TargetGame>,
    currentMap: Option<string>,
    rotation: seq<string>,
    mapChecksum: Option<int>)
  {
    function Address(): SocketAddr {
      SocketAddr(endpoint.address, gamePort)
    }

    /** The other game this server published itself for, when it named one. */
    function AnsweredForAnotherGame(game: TargetGame): Option<TargetGame> {
      if gameFamily.Some? && gameFamily.value != game then gameFamily else None
    }
  }
}
