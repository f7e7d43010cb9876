/** The relay server: its registry, its two broadcasts, and one client's service loop. */
module ServerSide {
  import opened Bytes
  import opened Wire
  import opened ClientList

  /** `erase(remove_if(...))` by id; also the recipients of a broadcast that excludes that id. */
  function Without(cs: seq<ClientHandler>, id: byte): seq<ClientHandler> {
    if cs == [] then []
    else
      var last := cs[|cs| - 1];
      Without(cs[..|cs| - 1], id) + if last.clientID == id then [] else [last]
  }

  /** Connections are numbered in order of acceptance and the registry keeps that order. */
  predicate InOrder(cs: seq<ClientHandler>) {
    forall i, j :: 0 <= i < j < |cs| ==> cs[i].socket < cs[j].socket
  }

  predicate Holds(cs: seq<ClientHandler>, socket: nat) {
    exists i :: 0 <= i < |cs| && cs[i].socket == socket
  }

  /** Every connection in `cs` gets `x` appended to what it was sent, every other keeps its own. */
  function Append<T>(channels: seq<seq<T>>, cs: seq<ClientHandler>, x: seq<T>): (r: seq<seq<T>>)
    ensures |r| == |channels|
  {
    seq(|channels|, k requires 0 <= k < |channels| => if Holds(cs, k) then channels[k] + x else channels[k])
  }

  function ListMessage(host: HostOrder, cs: seq<ClientHandler>): BaseMessage {
    BaseMessage(CLIENT_LIST_MESSAGE, 0, EncodeList(host, cs))
  }

  function IdMessage(id: byte): BaseMessage {
    BaseMessage(CLIENT_ID_MESSAGE, id, [])
  }

  function Stamp(id: byte, m: BaseMessage): BaseMessage {
    m.(senderID := id)
  }

  lemma {:induction false} WithoutMember(cs: seq<ClientHandler>, id: byte, c: ClientHandler)
    ensures c in Without(cs, id) <==> c in cs && c.clientID != id
  {
    if cs == [] {
    } else {
      WithoutMember(cs[..|cs| - 1], id, c);
      assert cs == cs[..|cs| - 1] + [cs[|cs| - 1]];
    }
  }

  /** Removing by id removes one handler exactly when no other registered client shares the id;
      then what is left is the registry with that one entry cut out. */
  lemma RemovesOne(cs: seq<ClientHandler>, i: nat)
    requires i < |cs|
    ensures (forall j :: 0 <= j < |cs| && j != i ==> cs[j].clientID != cs[i].clientID)
       <==> Without(cs, cs[i].clientID) == cs[..i] + cs[i + 1..]
  {
    var id := cs[i].clientID;
    if j :| 0 <= j < |cs| && j != i && cs[j].clientID == id {
      WithoutMember(cs, id, cs[j]);
      CutKeepsOthers(cs, i, j);
    } else {
      RemovesOnly(cs[..i], cs[i], cs[i + 1..]);
      CutSplits(cs, i);
    }
  }

  lemma RemovesOnly(a: seq<ClientHandler>, c: ClientHandler, b: seq<ClientHandler>)
    requires forall i :: 0 <= i < |a| ==> a[i].clientID != c.clientID
    requires forall i :: 0 <= i < |b| ==> b[i].clientID != c.clientID
    ensures Without(a + ([c] + b), c.clientID) == a + b
  {
    WithoutNone(a, c.clientID);
    WithoutNone(b, c.clientID);
    WithoutOne(c);
    WithoutConcat([c], b, c.clientID);
    assert [] + b == b;
    WithoutConcat(a, [c] + b, c.clientID);
  }

  lemma WithoutOne(c: ClientHandler)
    ensures Without([c], c.clientID) == []
  {
    assert [c][..0] == [];
  }

  lemma CutSplits(cs: seq<ClientHandler>, i: nat)
    requires i < |cs|
    ensures cs == cs[..i] + ([cs[i]] + cs[i + 1..])
  {
  }

  lemma CutKeepsOthers(cs: seq<ClientHandler>, i: nat, j: nat)
    requires i < |cs| && j < |cs| && i != j
    ensures cs[j] in cs[..i] + cs[i + 1..]
  {
    var k := if j < i then j else j - 1;
    assert (cs[..i] + cs[i + 1..])[k] == cs[j];
  }

  lemma {:induction false} WithoutConcat(a: seq<ClientHandler>, b: seq<ClientHandler>, id: byte)
    ensures Without(a + b, id) == Without(a, id) + Without(b, id)
  {
    if b == [] {
      assert a + b == a;
    } else {
      var init := b[..|b| - 1];
      WithoutConcat(a, init, id);
      assert (a + b)[..|a + b| - 1] == a + init;
      assert (a + b)[|a + b| - 1] == b[|b| - 1];
      ConcatAssociates(Without(a, id), Without(init, id), if b[|b| - 1].clientID == id then [] else [b[|b| - 1]]);
    }
  }

  lemma {:induction false} WithoutNone(cs: seq<ClientHandler>, id: byte)
    requires forall i :: 0 <= i < |cs| ==> cs[i].clientID != id
    ensures Without(cs, id) == cs
  {
    if cs == [] {
    } else {
      WithoutNone(cs[..|cs| - 1], id);
      assert cs == cs[..|cs| - 1] + [cs[|cs| - 1]];
    }
  }

  lemma {:induction false} WithoutInOrder(cs: seq<ClientHandler>, id: byte)
    requires InOrder(cs)
    ensures InOrder(Without(cs, id))
  {
    if cs == [] {
    } else {
      var init, last := cs[..|cs| - 1], cs[|cs| - 1];
      WithoutInOrder(init, id);
      var r := Without(init, id);
      forall i | 0 <= i < |r|
        ensures r[i].socket < last.socket
      {
        WithoutMember(init, id, r[i]);
        var j :| 0 <= j < |init| && init[j] == r[i];
        assert cs[j] == r[i];
      }
    }
  }

  /** Stamped relays of a list of messages, one broadcast after the other. */
  function RelayAll(wires: seq<seq<byte>>, to: seq<ClientHandler>, id: byte, ms: seq<BaseMessage>): (r: seq<seq<byte>>)
    ensures |r| == |wires|
  {
    if ms == [] then wires
    else Append(RelayAll(wires, to, id, ms[..|ms| - 1]), to, Frame(Stamp(id, ms[|ms| - 1])))
  }

  lemma RelayAllStep(wires: seq<seq<byte>>, to: seq<ClientHandler>, id: byte, ms: seq<BaseMessage>, m: BaseMessage)
    ensures RelayAll(wires, to, id, ms + [m]) == Append(RelayAll(wires, to, id, ms), to, Frame(Stamp(id, m)))
  {
    assert (ms + [m])[..|ms|] == ms;
  }

  /** What one client's whole session puts on another connection's wire. */
  lemma {:induction false} RelayAllAt(wires: seq<seq<byte>>, to: seq<ClientHandler>, id: byte,
                                      ms: seq<BaseMessage>, k: nat)
    requires k < |wires|
    ensures RelayAll(wires, to, id, ms)[k]
         == if Holds(to, k) then wires[k] + Frames(seq(|ms|, i requires 0 <= i < |ms| => Stamp(id, ms[i])))
            else wires[k]
  {
    var stamped := seq(|ms|, i requires 0 <= i < |ms| => Stamp(id, ms[i]));
    if ms == [] {
    } else {
      var init := ms[..|ms| - 1];
      var stampedInit := seq(|init|, i requires 0 <= i < |init| => Stamp(id, init[i]));
      RelayAllAt(wires, to, id, init, k);
      var last := Stamp(id, ms[|ms| - 1]);
      assert stamped == stampedInit + [last];
      FramesSnoc(stampedInit, last);
      ConcatAssociates(wires[k], Frames(stampedInit), Frame(last));
    }
  }

  /** The frames of a whole session on another connection, field by field. */
  lemma RelayAllFrames(wires: seq<seq<byte>>, to: seq<ClientHandler>, id: byte, ms: seq<BaseMessage>, k: nat)
    returns (frames: seq<BaseMessage>)
    requires k < |wires|
    ensures RelayAll(wires, to, id, ms)[k] == if Holds(to, k) then wires[k] + Frames(frames) else wires[k]
    ensures |frames| == |ms|
    ensures forall i :: 0 <= i < |ms| ==>
              && frames[i].messageType == ms[i].messageType && frames[i].message == ms[i].message
              && frames[i].senderID == id
  {
    RelayAllAt(wires, to, id, ms, k);
    frames := seq(|ms|, i requires 0 <= i < |ms| => Stamp(id, ms[i]));
  }

  class Server {
    const host: HostOrder
    var clients: seq<ClientHandler>
    var nextClientID: byte
    /** Bytes handed to `send`, per accepted connection. */
    var wires: seq<seq<byte>>

    ghost predicate Valid()
      reads this
    {
      && InOrder(clients)
      && (forall i :: 0 <= i < |clients| ==> clients[i].socket < |wires|)
    }

    constructor (host: HostOrder)
      ensures Valid() && this.host == host && clients == [] && nextClientID == 1 && wires == []
    {
      this.host, clients, nextClientID, wires := host, [], 1, [];
    }

    /** `acceptClients`, up to the end of its critical section. */
    method Register(ipAddress: seq<byte>, port: u16) returns (h: ClientHandler)
      requires Valid()
      modifies this
      ensures Valid()
      ensures h == ClientHandler(|old(wires)|, old(nextClientID), ipAddress, port)
      ensures clients == old(clients) + [h] && wires == old(wires) + [[]]
      ensures nextClientID == (old(nextClientID) + 1) % 0x100
    {
      h := ClientHandler(|wires|, nextClientID, ipAddress, port);
      nextClientID := if nextClientID == 0xFF then 0 else nextClientID + 1;
      clients := clients + [h];
      wires := wires + [[]];
    }

    /** A frame written to one connection: header first, then the body. */
    method SendFrame(socket: nat, m: BaseMessage)
      requires socket < |wires|
      modifies this`wires
      ensures wires == old(wires)[socket := old(wires)[socket] + Frame(m)]
    {
      var buffer := SerializeMessage(m);
      var msgSize := Htonl(host, Length32(buffer));
      LengthCrossesHosts(host, host, Length32(buffer));
      wires := wires[socket := wires[socket] + Store32(host, msgSize)];
      wires := wires[socket := wires[socket] + buffer];
      ConcatAssociates(old(wires)[socket], Store32(host, msgSize), buffer);
    }

    method SendId(h: ClientHandler)
      requires Valid() && h.socket < |wires|
      modifies this`wires
      ensures Valid()
      ensures wires == old(wires)[h.socket := old(wires)[h.socket] + Frame(IdMessage(h.clientID))]
    {
      SendFrame(h.socket, BaseMessage(CLIENT_ID_MESSAGE, h.clientID, []));
    }

    /** The sending loop over the handlers that do not have the excluded id. */
    method BroadcastMessage(msg: BaseMessage, excludeID: byte)
      requires Valid()
      modifies this`wires
      ensures Valid()
      ensures wires == Append(old(wires), Without(clients, excludeID), Frame(msg))
    {
      for i := 0 to |clients|
        invariant |wires| == |old(wires)|
        invariant wires == Append(old(wires), Without(clients[..i], excludeID), Frame(msg))
      {
        ghost var done := Without(clients[..i], excludeID);
        assert clients[..i + 1][..i] == clients[..i];
        if clients[i].clientID != excludeID {
          NotYetServed(clients, i, excludeID);
          SendFrame(clients[i].socket, msg);
          assert Without(clients[..i + 1], excludeID) == done + [clients[i]];
          HoldsAppend(done, clients[i]);
        } else {
          assert Without(clients[..i + 1], excludeID) == done;
        }
      }
      assert clients[..|clients|] == clients;
    }

    method NotifyClients()
      requires Valid()
      modifies this`wires
      ensures Valid()
      ensures wires == Append(old(wires), clients, Frame(ListMessage(host, clients)))
    {
      var payload := WriteClientList(host, clients);
      var list := BaseMessage(CLIENT_LIST_MESSAGE, 0, payload);
      for i := 0 to |clients|
        invariant |wires| == |old(wires)|
        invariant wires == Append(old(wires), clients[..i], Frame(list))
      {
        assert !Holds(clients[..i], clients[i].socket);
        SendFrame(clients[i].socket, list);
        assert clients[..i + 1] == clients[..i] + [clients[i]];
        HoldsAppend(clients[..i], clients[i]);
      }
      assert clients[..|clients|] == clients;
    }

    /** The erase at the end of `handleClient`. */
    method Erase(clientID: byte)
      requires Valid()
      modifies this`clients
      ensures Valid()
      ensures clients == Without(old(clients), clientID)
    {
      var kept: seq<ClientHandler> := [];
      for i := 0 to |clients|
        invariant kept == Without(clients[..i], clientID)
      {
        assert clients[..i + 1][..i] == clients[..i];
        if clients[i].clientID != clientID {
          kept := kept + [clients[i]];
        }
      }
      assert clients[..|clients|] == clients;
      WithoutInOrder(clients, clientID);
      forall i | 0 <= i < |kept|
        ensures kept[i].socket < |wires|
      {
        WithoutMember(clients, clientID, kept[i]);
      }
      clients := kept;
    }

    /** `handleClient` with no other thread in between: every whole frame the client sent is
        stamped and relayed, in order; then the client is erased and the rest are told. */
    method HandleClient(h: ClientHandler, sock: Socket)
      requires Valid() && HeadersWhole(sock.incoming)
      modifies this, sock
      ensures Valid()
      ensures clients == Without(old(clients), h.clientID) && nextClientID == old(nextClientID)
      ensures wires == Append(
                RelayAll(old(wires), Without(old(clients), h.clientID), h.clientID, Parse(old(sock.incoming))),
                clients, Frame(ListMessage(host, clients)))
    {
      ghost var to := Without(clients, h.clientID);
      ghost var relayed: seq<BaseMessage> := [];
      while true
        invariant Valid() && HeadersWhole(sock.incoming)
        invariant clients == old(clients) && nextClientID == old(nextClientID)
        invariant relayed + Parse(sock.incoming) == Parse(old(sock.incoming))
        invariant wires == RelayAll(old(wires), to, h.clientID, relayed)
        decreases |sock.incoming|
      {
        ParseStep(sock.incoming);
        var d := sock.ReadFrame(host);
        if !d.Delivered? { break; }
        var msg := DeserializeMessage(d.buffer);
        if msg.Some? {
          BroadcastMessage(msg.value.(senderID := h.clientID), h.clientID);
          RelayAllStep(old(wires), to, h.clientID, relayed, msg.value);
          ConcatAssociates(relayed, [msg.value], Parse(sock.incoming));
          relayed := relayed + [msg.value];
        }
      }
      assert relayed + [] == relayed;
      Erase(h.clientID);
      NotifyClients();
    }
  }

  lemma HoldsAppend(cs: seq<ClientHandler>, c: ClientHandler)
    ensures forall k :: Holds(cs + [c], k) <==> Holds(cs, k) || k == c.socket
  {
    forall k
      ensures Holds(cs + [c], k) <==> Holds(cs, k) || k == c.socket
    {
      if Holds(cs, k) {
        var i :| 0 <= i < |cs| && cs[i].socket == k;
        assert (cs + [c])[i].socket == k;
      }
      if k == c.socket {
        assert (cs + [c])[|cs|].socket == k;
      }
    }
  }

  lemma NotYetServed(cs: seq<ClientHandler>, i: nat, id: byte)
    requires InOrder(cs) && i < |cs|
    ensures !Holds(Without(cs[..i], id), cs[i].socket)
  {
    var done := Without(cs[..i], id);
    forall j | 0 <= j < |done|
      ensures done[j].socket != cs[i].socket
    {
      WithoutMember(cs[..i], id, done[j]);
    }
  }
}
