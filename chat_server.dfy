/**
 * The broker's accept loop: the username registry (`clientFileServers`), the
 * list of broadcast connections (`connectedClients`), and the three-way
 * dispatch on the first request of every accepted connection. Each
 * `synchronized` section is one atomic step; one call of Dispatch is one turn
 * of the `while (true)` accept loop.
 */
module ChatServer {
  import opened Wrappers
  import opened Bytes
  import opened JavaInt
  import opened Protocol

  /** The two pieces of shared state, as a value. */
  datatype Registry = Registry(clientFileServers: map<string, ClientDetails>, connectedClients: seq<ConnId>)

  /** What the accept loop does with one connection. */
  datatype Outcome =
    | NameTaken(message: string)       // rejection text written, then shutdown and close
    | JoinedChat(username: string)     // registered; a ServerClientHandler now serves the connection
    | OwnerUnknown(header: seq<byte>)  // this header written, then shutdown and close
    | ProxyStarted(filename: string, ownerAddress: Address, ownerListenPort: int)
    | BadRequest                       // closed without a reply

  /** The text sent back when a join asks for a name that is already registered. */
  function TakenMessage(username: string): string {
    "Username \"" + username + "\" is already taken! Please choose a different name."
  }

  ghost predicate Distinct(s: seq<ConnId>) {
    forall i, j :: 0 <= i < j < |s| ==> s[i] != s[j]
  }

  /**
   * No connection is listed twice, and there are never more live connections
   * than registered names (every listed connection joined under its own name;
   * names outlive their connections).
   */
  ghost predicate Consistent(reg: Registry) {
    Distinct(reg.connectedClients) && |reg.connectedClients| <= |reg.clientFileServers|
  }

  /** The effect of one accepted connection whose first request is `req`. */
  function Admit(reg: Registry, conn: ConnId, peer: Address, req: Request): (r: (Registry, Outcome))
    ensures r.1.JoinedChat? <==> req.Join? && req.username !in reg.clientFileServers
    ensures !r.1.JoinedChat? ==> r.0 == reg
    ensures r.1.JoinedChat? ==> |r.0.clientFileServers| == |reg.clientFileServers| + 1
  {
    match req
    case Join(username, port) =>
      if username in reg.clientFileServers then (reg, NameTaken(TakenMessage(username)))
      else
        var servers := reg.clientFileServers[username := ClientDetails(peer, port)];
        assert servers.Keys == reg.clientFileServers.Keys + {username};
        (Registry(servers, reg.connectedClients + [conn]), JoinedChat(username))
    case FileRequest(owner, filename) =>
      if owner !in reg.clientFileServers then (reg, OwnerUnknown(WriteLong(0)))
      else
        var details := reg.clientFileServers[owner];
        (reg, ProxyStarted(filename, details.address, details.listenPort))
    case Malformed =>
      (reg, BadRequest)
  }

  /** A fresh connection (one the list does not hold yet) keeps the registry consistent. */
  lemma AdmitKeepsConsistent(reg: Registry, conn: ConnId, peer: Address, req: Request)
    requires Consistent(reg) && conn !in reg.connectedClients
    ensures Consistent(Admit(reg, conn, peer, req).0)
  {
    var r := Admit(reg, conn, peer, req);
    if r.1.JoinedChat? {
      var s := reg.connectedClients + [conn];
      assert r.0.connectedClients == s;
      forall i, j | 0 <= i < j < |s| ensures s[i] != s[j] {
        if j == |s| - 1 {
          assert s[i] in reg.connectedClients;
        }
      }
    }
  }

  /** One accepted connection, in arrival order. */
  datatype Arrival = Arrival(conn: ConnId, peer: Address, req: Request)

  /** The registry after a run of the accept loop over `arrivals`. */
  function AdmitAll(reg: Registry, arrivals: seq<Arrival>): Registry
  {
    if arrivals == [] then reg
    else
      var last := arrivals[|arrivals| - 1];
      Admit(AdmitAll(reg, arrivals[..|arrivals| - 1]), last.conn, last.peer, last.req).0
  }

  /** Every arrival is a join, and no two of them ask for the same name. */
  ghost predicate DistinctJoins(arrivals: seq<Arrival>) {
    (forall i :: 0 <= i < |arrivals| ==> arrivals[i].req.Join?)
    && forall i, j :: 0 <= i < j < |arrivals| ==> arrivals[i].req.username != arrivals[j].req.username
  }

  function Conns(arrivals: seq<Arrival>): (cs: seq<ConnId>)
    ensures |cs| == |arrivals|
    ensures forall i :: 0 <= i < |arrivals| ==> cs[i] == arrivals[i].conn
  {
    if arrivals == [] then [] else Conns(arrivals[..|arrivals| - 1]) + [arrivals[|arrivals| - 1].conn]
  }

  /** The names the joins among `arrivals` ask for. */
  function JoinNames(arrivals: seq<Arrival>): set<string>
  {
    if arrivals == [] then {}
    else
      var last := arrivals[|arrivals| - 1];
      JoinNames(arrivals[..|arrivals| - 1]) + if last.req.Join? then {last.req.username} else {}
  }

  lemma {:induction false} NotAJoinName(arrivals: seq<Arrival>, u: string)
    requires forall i :: 0 <= i < |arrivals| && arrivals[i].req.Join? ==> arrivals[i].req.username != u
    ensures u !in JoinNames(arrivals)
  {
    if arrivals != [] {
      NotAJoinName(arrivals[..|arrivals| - 1], u);
    }
  }

  /**
   * Starting from an empty server, N joins with distinct names register N
   * names and N connections (in arrival order), each name resolving to the
   * address it connected from and the listen port it announced.
   */
  lemma {:induction false} DistinctJoinsAllRegistered(arrivals: seq<Arrival>)
    requires DistinctJoins(arrivals)
    ensures var reg := AdmitAll(Registry(map[], []), arrivals);
      && reg.clientFileServers.Keys == JoinNames(arrivals)
      && |reg.clientFileServers| == |arrivals|
      && reg.connectedClients == Conns(arrivals)
      && forall i :: 0 <= i < |arrivals| ==>
           && arrivals[i].req.username in reg.clientFileServers
           && reg.clientFileServers[arrivals[i].req.username]
             == ClientDetails(arrivals[i].peer, arrivals[i].req.clientListenPort)
  {
    if arrivals != [] {
      var n := |arrivals| - 1;
      var init, last := arrivals[..n], arrivals[n];
      assert DistinctJoins(init);
      DistinctJoinsAllRegistered(init);
      var before := AdmitAll(Registry(map[], []), init);
      assert last.req.Join?;
      NotAJoinName(init, last.req.username);
      var details := ClientDetails(last.peer, last.req.clientListenPort);
      var after := AdmitAll(Registry(map[], []), arrivals);
      assert after.clientFileServers == before.clientFileServers[last.req.username := details];
      assert after.connectedClients == before.connectedClients + [last.conn];
      forall i | 0 <= i < |arrivals|
        ensures arrivals[i].req.username in after.clientFileServers
        ensures after.clientFileServers[arrivals[i].req.username]
             == ClientDetails(arrivals[i].peer, arrivals[i].req.clientListenPort)
      {
        if i < n {
          assert init[i] == arrivals[i];
        }
      }
      assert Conns(arrivals) == Conns(init) + [last.conn];
    }
  }

  /**
   * Java's `main` argument check: exactly one argument, which Integer.parseInt
   * accepts; anything else ends in printUsage.
   */
  function ServerArgs(args: seq<string>): (r: Result<int, UsageError>)
    ensures r.Success? <==> |args| == 1 && ParseInt(args[0]).Some?
    ensures r.Success? ==> r.value == ParseInt(args[0]).value
  {
    if |args| != 1 then Failure(Usage)
    else match ParseInt(args[0])
      case Some(port) => Success(port)
      case None => Failure(Usage)
  }

  /** The server starts on any `int` port written in decimal. */
  lemma ServerArgsAcceptDecimal(port: int)
    requires MinInt <= port <= MaxInt
    ensures ServerArgs([ToDecimal(port)]) == Success(port)
  {
    ParseDecimal(port);
  }

  class Broker {
    /** Username to the address and listen port of that client's file server. */
    var clientFileServers: map<string, ClientDetails>
    /** The broadcast connections of joined clients, in join order. */
    var connectedClients: seq<ConnId>
    /** Every connection dispatched so far: accept() always hands out a new socket. */
    ghost var accepted: set<ConnId>

    ghost function State(): Registry
      reads this
    {
      Registry(clientFileServers, connectedClients)
    }

    ghost predicate Valid()
      reads this
    {
      Consistent(State()) && forall c :: c in connectedClients ==> c in accepted
    }

    constructor ()
      ensures Valid()
      ensures clientFileServers == map[] && connectedClients == [] && accepted == {}
    {
      clientFileServers := map[];
      connectedClients := [];
      accepted := {};
    }

    /** One turn of the accept loop, for the connection `conn` from `peer` whose first request is `req`. */
    method Dispatch(conn: ConnId, peer: Address, req: Request) returns (outcome: Outcome)
      requires Valid() && conn !in accepted
      modifies this
      ensures Valid() && accepted == old(accepted) + {conn}
      ensures (State(), outcome) == Admit(old(State()), conn, peer, req)
      ensures req.Join? && req.username in old(clientFileServers) ==>
        && outcome == NameTaken(TakenMessage(req.username))
        && clientFileServers == old(clientFileServers) && connectedClients == old(connectedClients)
      ensures req.Join? && req.username !in old(clientFileServers) ==>
        && outcome == JoinedChat(req.username)
        && clientFileServers == old(clientFileServers)[req.username := ClientDetails(peer, req.clientListenPort)]
        && connectedClients == old(connectedClients) + [conn]
      ensures req.FileRequest? && req.fileOwner !in old(clientFileServers) ==>
        && outcome == OwnerUnknown([0, 0, 0, 0, 0, 0, 0, 0])
        && clientFileServers == old(clientFileServers) && connectedClients == old(connectedClients)
      ensures req.FileRequest? && req.fileOwner in old(clientFileServers) ==>
        && outcome == ProxyStarted(req.filename, old(clientFileServers)[req.fileOwner].address,
                                   old(clientFileServers)[req.fileOwner].listenPort)
        && clientFileServers == old(clientFileServers) && connectedClients == old(connectedClients)
      ensures req.Malformed? ==>
        && outcome == BadRequest
        && clientFileServers == old(clientFileServers) && connectedClients == old(connectedClients)
    {
      AdmitKeepsConsistent(State(), conn, peer, req);
      accepted := accepted + {conn};
      match req {
        case Join(username, clientListenPort) =>
          var userExists := username in clientFileServers;
          if userExists {
            outcome := NameTaken(TakenMessage(username));
            return;
          }
          clientFileServers := clientFileServers[username := ClientDetails(peer, clientListenPort)];
          connectedClients := connectedClients + [conn];
          outcome := JoinedChat(username);
        case FileRequest(fileOwner, filename) =>
          if fileOwner !in clientFileServers {
            ZeroHeader();
            outcome := OwnerUnknown(WriteLong(0));
            return;
          }
          var owner := clientFileServers[fileOwner];
          outcome := ProxyStarted(filename, owner.address, owner.listenPort);
        case Malformed =>
          outcome := BadRequest;
      }
    }
  }
}
