/** The step system and the server object do the same: each step is one call of the server. */
module RelayRefinement {
  import opened Bytes
  import opened Wire
  import opened ClientList
  import opened ServerSide
  import opened Relay
  import opened RelayLists

  /** The bytes each connection has been handed. */
  function Wires(sent: seq<seq<Sent>>): (r: seq<seq<byte>>)
    ensures |r| == |sent|
  {
    seq(|sent|, k requires 0 <= k < |sent| => Frames(Messages(sent[k])))
  }

  predicate Represents(server: Server, s: State)
    reads server
  {
    server.clients == s.clients && server.nextClientID == s.nextClientID && server.wires == Wires(s.sent)
  }

  lemma FramesPush(es: seq<Sent>, e: Sent)
    ensures Frames(Messages(es + [e])) == Frames(Messages(es)) + Frame(e.msg)
  {
    assert Messages(es + [e]) == Messages(es) + [e.msg];
    FramesSnoc(Messages(es), e.msg);
  }

  lemma WiresAppend(sent: seq<seq<Sent>>, cs: seq<ClientHandler>, e: Sent)
    ensures Wires(Append(sent, cs, [e])) == Append(Wires(sent), cs, Frame(e.msg))
  {
    forall k | 0 <= k < |sent|
      ensures Wires(Append(sent, cs, [e]))[k] == Append(Wires(sent), cs, Frame(e.msg))[k]
    {
      FramesPush(sent[k], e);
    }
  }

  lemma WiresUpdate(sent: seq<seq<Sent>>, k: nat, e: Sent)
    requires k < |sent|
    ensures Wires(sent[k := sent[k] + [e]]) == Wires(sent)[k := Wires(sent)[k] + Frame(e.msg)]
  {
    FramesPush(sent[k], e);
  }

  lemma WiresNew(sent: seq<seq<Sent>>)
    ensures Wires(sent + [[]]) == Wires(sent) + [[]]
  {
    assert Messages([]) == [];
  }

  /** Every step of the system is what the server object does, byte for byte. */
  method PerformStep(server: Server, s: State, a: Action)
    requires server.Valid() && Represents(server, s) && Shape(s) && Enabled(s, a)
    modifies server
    ensures server.Valid() && Represents(server, Next(server.host, s, a))
  {
    match a {
      case Accept(ip, port) =>
        var h := server.Register(ip, port);
        WiresNew(s.sent);
      case SendId =>
        var h := s.accepted[|s.accepted| - 1];
        server.SendId(h);
        WiresUpdate(s.sent, h.socket, Sent(IdMessage(h.clientID), FromServer));
      case ListAccepted =>
        server.NotifyClients();
        WiresAppend(s.sent, s.clients, Sent(ListMessage(server.host, s.clients), FromServer));
      case ListErased(_) =>
        server.NotifyClients();
        WiresAppend(s.sent, s.clients, Sent(ListMessage(server.host, s.clients), FromServer));
      case Broadcast(k) =>
        var id := s.accepted[k].clientID;
        var msg := s.threads[k].msg.(senderID := id);
        server.BroadcastMessage(msg, id);
        WiresAppend(s.sent, Without(s.clients, id), Sent(msg, FromClient(k)));
      case Erase(k) =>
        server.Erase(s.accepted[k].clientID);
      case _ =>
    }
  }
}
