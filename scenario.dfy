/**
 * The components run one after another: two clients join and chat, and one
 * fetches a file from the other through the server's relay.
 */
module Scenario {
  import opened Wrappers
  import opened Bytes
  import opened Protocol
  import opened ChatServer
  import opened ServerClientHandler
  import ServerFileTransferProxy
  import opened FileRequestHandler
  import FileRequester

  /**
   * The owner's listener answers, the relay forwards, the requester stores:
   * the local file ends up holding exactly the owner's file when the owner can
   * serve it, and no local file is created otherwise.
   */
  method FileTransferEndToEnd(fs: FileSystem, owner: string, filename: string)
    returns (got: Option<FileRequester.LocalFile>)
    requires Plausible(fs)
    ensures got == if Servable(fs, filename) then Some(FileRequester.LocalFile(filename, fs[filename].contents)) else None
  {
    var served := Serve(fs, Incoming(Some(filename), None, false));
    ResponseFramed(fs, filename);
    var relay := ServerFileTransferProxy.Run(filename, true, false, InStream(served.reply, EndOfStream), true, false);
    var fetch := FileRequester.Run(owner, filename, true, false, InStream(relay.toRequester, EndOfStream));
    got := fetch.localFile;
  }

  /** "alice" joins from one address with listen port 9001, then "bob" from another with 9002. */
  method AliceAndBobJoin() returns (broker: Broker)
    ensures fresh(broker) && broker.Valid() && broker.accepted == {1, 2}
    ensures broker.connectedClients == [1, 2]
    ensures broker.clientFileServers
         == map["alice" := ClientDetails(Address(1), 9001), "bob" := ClientDetails(Address(2), 9002)]
  {
    broker := new Broker();
    var joinedAlice := broker.Dispatch(1, Address(1), Join("alice", 9001));
    assert broker.clientFileServers == map["alice" := ClientDetails(Address(1), 9001)];
    assert "bob" !in broker.clientFileServers;
    var joinedBob := broker.Dispatch(2, Address(2), Join("bob", 9002));
  }

  /** alice says "hello": only bob receives it, as "alice: hello". */
  method AliceSaysHello() returns (delivered: seq<ConnId>, text: string)
    ensures delivered == [2] && text == "alice: hello"
  {
    var broker := AliceAndBobJoin();
    delivered, text := Broadcast(broker, 1, "alice", "hello", {1, 2}, {});
    assert [1, 2][..1] == [1] && [1][..0] == [];
  }

  /** bob's request for alice's "notes.txt" is relayed to alice's address and listen port. */
  method BobRequestsNotes() returns (outcome: Outcome)
    ensures outcome == ProxyStarted("notes.txt", Address(1), 9001)
  {
    var broker := AliceAndBobJoin();
    outcome := broker.Dispatch(3, Address(2), FileRequest("alice", "notes.txt"));
  }
}
