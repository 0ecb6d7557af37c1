/**
 * The per-client handler on the server: fan-out of one chat message to every
 * other live broadcast connection, and removal of the handler's own connection
 * when reading from it fails. The username is a parameter (the handler learns
 * it from the client); one call of Broadcast is one turn of the read loop.
 */
module ServerClientHandler {
  import opened Protocol
  import opened ChatServer

  /** The text each recipient receives: the sender's name, ": ", then the message. */
  function Tagged(username: string, message: string): (text: string)
    ensures |text| == |username| + 2 + |message|
    ensures text[..|username|] == username
    ensures text[|username|..|username| + 2] == ": "
    ensures text[|username| + 2..] == message
  {
    username + ": " + message
  }

  /**
   * The sockets of `clients`, in list order, to which the message is
   * delivered: every one except the sender's own that is in `reachable`.
   */
  function Recipients(clients: seq<ConnId>, sender: ConnId, reachable: set<ConnId>): (r: seq<ConnId>)
    ensures |r| <= |clients|
    ensures forall c :: c in r ==> c in clients && c != sender && c in reachable
  {
    if clients == [] then []
    else
      var last := clients[|clients| - 1];
      Recipients(clients[..|clients| - 1], sender, reachable)
        + if last != sender && last in reachable then [last] else []
  }

  /** How many copies each socket receives: as often as it is listed, if it is a recipient at all. */
  lemma {:induction false} RecipientsCount(clients: seq<ConnId>, sender: ConnId, reachable: set<ConnId>, c: ConnId)
    ensures multiset(Recipients(clients, sender, reachable))[c]
         == if c != sender && c in reachable then multiset(clients)[c] else 0
  {
    if clients != [] {
      var init, last := clients[..|clients| - 1], clients[|clients| - 1];
      RecipientsCount(init, sender, reachable, c);
      assert clients == init + [last];
    }
  }

  /** Recipients are visited in list order: the filter distributes over concatenation. */
  lemma {:induction false} RecipientsAppend(a: seq<ConnId>, b: seq<ConnId>, sender: ConnId, reachable: set<ConnId>)
    ensures Recipients(a + b, sender, reachable) == Recipients(a, sender, reachable) + Recipients(b, sender, reachable)
    decreases |b|
  {
    if b == [] {
      assert a + b == a;
    } else {
      var init := b[..|b| - 1];
      assert (a + b)[..|a + b| - 1] == a + init;
      RecipientsAppend(a, init, sender, reachable);
    }
  }

  lemma {:induction false} DistinctCount(s: seq<ConnId>, c: ConnId)
    requires Distinct(s)
    ensures multiset(s)[c] == if c in s then 1 else 0
  {
    if s != [] {
      var init, last := s[..|s| - 1], s[|s| - 1];
      assert Distinct(init);
      DistinctCount(init, c);
      assert s == init + [last];
      assert last !in init;
    }
  }

  /**
   * With the list the server keeps (no socket twice), every other reachable
   * client receives exactly one copy and the sender none.
   */
  lemma ExactlyOneCopy(clients: seq<ConnId>, sender: ConnId, reachable: set<ConnId>, c: ConnId)
    requires Distinct(clients)
    ensures multiset(Recipients(clients, sender, reachable))[c]
         == if c in clients && c != sender && c in reachable then 1 else 0
  {
    RecipientsCount(clients, sender, reachable, c);
    DistinctCount(clients, c);
  }

  /**
   * Fault isolation: a recipient whose write does not fail receives as many
   * copies as it would if no write had failed.
   */
  lemma FailuresIsolated(clients: seq<ConnId>, sender: ConnId, connected: set<ConnId>, failing: set<ConnId>, c: ConnId)
    requires c !in failing
    ensures multiset(Recipients(clients, sender, connected - failing))[c]
         == multiset(Recipients(clients, sender, connected))[c]
  {
    RecipientsCount(clients, sender, connected - failing, c);
    RecipientsCount(clients, sender, connected, c);
  }

  /**
   * One message from the client on `sender`, registered as `username`: write
   * the tagged text to every socket in `connectedClients` that is not the
   * sender's and is connected. A write to a socket in `failing` throws, is
   * caught, and the loop goes on. Returns the sockets that received the text,
   * in the order they received it.
   */
  method Broadcast(broker: Broker, sender: ConnId, username: string, message: string,
                   connected: set<ConnId>, failing: set<ConnId>)
    returns (delivered: seq<ConnId>, text: string)
    ensures text == Tagged(username, message)
    ensures delivered == Recipients(broker.connectedClients, sender, connected - failing)
  {
    text := username + ": " + message;
    delivered := [];
    var clients := broker.connectedClients;
    for i := 0 to |clients|
      invariant delivered == Recipients(clients[..i], sender, connected - failing)
    {
      var recipientSocket := clients[i];
      assert clients[..i + 1] == clients[..i] + [recipientSocket];
      if recipientSocket != sender && recipientSocket in connected {
        var writeFails := recipientSocket in failing;
        if !writeFails {
          delivered := delivered + [recipientSocket];
        }
      }
    }
    assert clients[..|clients|] == clients;
  }

  /** ArrayList.remove(Object): drop the first occurrence, if any, keeping the order of the rest. */
  function RemoveFirst(s: seq<ConnId>, x: ConnId): (r: seq<ConnId>)
    ensures x !in s ==> r == s
    ensures x in s ==> |r| == |s| - 1
  {
    if s == [] then []
    else if s[0] == x then s[1..] else [s[0]] + RemoveFirst(s[1..], x)
  }

  /** Removal takes away one occurrence of `x` when there is one, and changes no other count. */
  lemma {:induction false} RemoveFirstCount(s: seq<ConnId>, x: ConnId)
    ensures multiset(RemoveFirst(s, x)) == multiset(s) - multiset{x}
  {
    if s != [] {
      assert s == [s[0]] + s[1..];
      RemoveFirstCount(s[1..], x);
    }
  }

  /** When the first occurrence of `x` is at `i`, removal deletes exactly position `i`. */
  lemma {:induction false} RemoveFirstAt(s: seq<ConnId>, x: ConnId, i: nat)
    requires i < |s| && s[i] == x && x !in s[..i]
    ensures RemoveFirst(s, x) == s[..i] + s[i + 1..]
  {
    if i > 0 {
      assert s[0] != x by { assert s[0] == s[..i][0]; }
      assert s[1..][..i - 1] == s[1..i];
      assert x !in s[1..i] by { assert forall k :: 0 <= k < i - 1 ==> s[1..i][k] == s[..i][k + 1]; }
      RemoveFirstAt(s[1..], x, i - 1);
      assert s[..i] + s[i + 1..] == [s[0]] + (s[1..][..i - 1] + s[1..][i..]);
    }
  }

  /** Removal takes out exactly the first occurrence and leaves everything around it in place. */
  lemma RemoveFirstSplits(a: seq<ConnId>, x: ConnId, b: seq<ConnId>)
    requires x !in a
    ensures RemoveFirst(a + [x] + b, x) == a + b
  {
    var s := a + [x] + b;
    assert s[..|a|] == a && s[|a| + 1..] == b;
    RemoveFirstAt(s, x, |a|);
  }

  lemma {:induction false} RemoveFirstKeepsDistinct(s: seq<ConnId>, x: ConnId)
    requires Distinct(s)
    ensures Distinct(RemoveFirst(s, x)) && x !in RemoveFirst(s, x)
    ensures forall c :: c in RemoveFirst(s, x) ==> c in s
  {
    if s != [] {
      var rest := s[1..];
      assert Distinct(rest);
      assert s[0] !in rest;
      if s[0] != x {
        RemoveFirstKeepsDistinct(rest, x);
        var r := RemoveFirst(s, x);
        assert r == [s[0]] + RemoveFirst(rest, x);
      }
    }
  }

  /** The registry after the handler of `conn` gives up: only the connection list changes. */
  function Leave(reg: Registry, conn: ConnId): (r: Registry)
    ensures r.clientFileServers == reg.clientFileServers
    ensures multiset(r.connectedClients) == multiset(reg.connectedClients) - multiset{conn}
  {
    RemoveFirstCount(reg.connectedClients, conn);
    Registry(reg.clientFileServers, RemoveFirst(reg.connectedClients, conn))
  }

  /** Leaving keeps the registry consistent, and leaving twice is leaving once. */
  lemma LeaveKeepsConsistent(reg: Registry, conn: ConnId)
    requires Consistent(reg)
    ensures Consistent(Leave(reg, conn))
    ensures Leave(Leave(reg, conn), conn) == Leave(reg, conn)
  {
    RemoveFirstKeepsDistinct(reg.connectedClients, conn);
  }

  /**
   * A departed client's name is never released: a later join asking for it
   * is still rejected.
   */
  lemma NameStaysTaken(reg: Registry, conn: ConnId, newConn: ConnId, peer: Address, name: string, port: int)
    requires name in reg.clientFileServers
    ensures Admit(Leave(reg, conn), newConn, peer, Join(name, port)).1 == NameTaken(TakenMessage(name))
  {
  }

  /** Why the handler's read loop ended. */
  datatype ReadFailure =
    | StreamClosed  // an IOException: the client shut the connection
    | Unexpected    // any other exception

  /**
   * The handler of `conn` after its read loop fails: remove its socket from
   * `connectedClients` (and nothing else); on an unexpected exception it also
   * shuts down the socket and then closes it, unless `shutdownOutput` throws
   * (`shutdownFails`), which is swallowed and skips the close. Returns whether
   * it closed the socket.
   */
  method Disconnect(broker: Broker, conn: ConnId, cause: ReadFailure, shutdownFails: bool) returns (closed: bool)
    requires broker.Valid()
    modifies broker
    ensures broker.Valid()
    ensures broker.State() == Leave(old(broker.State()), conn)
    ensures broker.connectedClients == RemoveFirst(old(broker.connectedClients), conn)
    ensures broker.clientFileServers == old(broker.clientFileServers) && broker.accepted == old(broker.accepted)
    ensures conn !in broker.connectedClients
    ensures closed <==> cause.Unexpected? && !shutdownFails
  {
    LeaveKeepsConsistent(broker.State(), conn);
    RemoveFirstKeepsDistinct(broker.connectedClients, conn);
    broker.connectedClients := RemoveFirst(broker.connectedClients, conn);
    closed := cause.Unexpected? && !shutdownFails;
  }
}
