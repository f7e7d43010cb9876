/** From one client's `writeMessage`, over TCP and the relay, to another client's event loop. */
module EndToEnd {
  import opened Bytes
  import opened Wire
  import opened Relay
  import opened RelayLists
  import opened ClientList
  import opened ServerSide
  import opened ClientSide
  import opened GameData
  import opened GameClient

  /** One call of `writeMessage`: the id the client has at that time, and what it has to say. */
  datatype Write = Write(id: byte, messages: seq<BaseMessage>)

  function Written(calls: seq<Write>): seq<BaseMessage> {
    if calls == [] then []
    else Written(calls[..|calls| - 1]) + Outbox(calls[|calls| - 1].id, calls[|calls| - 1].messages)
  }

  lemma {:induction false} WrittenCarriesData(calls: seq<Write>)
    ensures NoneEmpty(Written(calls))
  {
    if calls == [] {
    } else {
      var last := calls[|calls| - 1];
      WrittenCarriesData(calls[..|calls| - 1]);
      OutboxCarriesData(last.id, last.messages);
    }
  }

  /** What the server read from a client is what arrived of the client's writes, wherever the
      connection broke. */
  predicate ReadFrom(read: seq<BaseMessage>, calls: seq<Write>, cut: nat) {
    && AllFit(Written(calls))
    && cut <= |Frames(Written(calls))|
    && read <= Parse(Frames(Written(calls))[..cut])
  }

  lemma ReadsCarryData(read: seq<BaseMessage>, calls: seq<Write>, cut: nat)
    requires ReadFrom(read, calls, cut)
    ensures NoneEmpty(read) && read <= Written(calls)
  {
    CutStream(Written(calls), cut);
    WrittenCarriesData(calls);
    var j := WholeFrames(Written(calls), cut);
    assert forall i :: 0 <= i < |read| ==> read[i] == Written(calls)[..j][i];
  }

  lemma {:induction false} OfTypeCarriesData(ms: seq<BaseMessage>)
    requires EventsCarryData(ms)
    ensures NoneEmpty(OfType(ms, EVENT_MESSAGE))
  {
    if ms == [] {
    } else {
      OfTypeCarriesData(ms[..|ms| - 1]);
    }
  }

  /** If all clients send through `writeMessage`, then in every run, for every client, after any
      number of received frames and handled events, no queued event is without payload; so the
      event loop ends whatever the labels, the readers and the game state are. */
  lemma EventLoopAlwaysEnds<M>(host: HostOrder, actions: seq<Action>, calls: seq<seq<Write>>, cuts: seq<nat>,
                               c: nat, received: nat, handled: nat, start: ClientState,
                               labels: map<byte, bool>, readers: Readers<M>, game: GameState<M>)
    requires Run(host, actions).Some? && c < |Run(host, actions).value.sent|
    requires var s := Run(host, actions).value;
             && |calls| == |s.read| && |cuts| == |s.read|
             && (forall k :: 0 <= k < |s.read| ==> ReadFrom(s.read[k], calls[k], cuts[k]))
             && received <= |s.sent[c]|
             && start.events == []
             && handled <= |TakeAll(host, start, Messages(s.sent[c])[..received]).events|
    requires game.players != []
    ensures var s := Run(host, actions).value;
            var queue := TakeAll(host, start, Messages(s.sent[c])[..received]).events[handled..];
            && NoneEmpty(queue)
            && Drainable(labels, readers, game, queue)
            && exists n: nat :: Ended(Turns(labels, readers, EventLoop(game, queue, false), n))
  {
    var s := Run(host, actions).value;
    forall k | 0 <= k < |s.read|
      ensures EventsCarryData(s.read[k])
    {
      ReadsCarryData(s.read[k], calls[k], cuts[k]);
    }
    ChannelEventsCarryData(host, actions, c);
    var taken := Messages(s.sent[c])[..received];
    assert EventsCarryData(taken) by {
      assert forall i :: 0 <= i < |taken| ==> taken[i] == Messages(s.sent[c])[i];
    }
    OfTypeCarriesData(taken);
    TakeAllQueues(host, start, taken);
    var events := TakeAll(host, start, taken).events;
    assert events == OfType(taken, EVENT_MESSAGE);
    var queue := events[handled..];
    assert NoneEmpty(queue);
    NoneEmptyDrains(labels, readers, game, queue);
    EventLoopEndsExactly(labels, readers, game, queue);
  }

  lemma MirrorIds(m: map<byte, ClientInfo>, cs: seq<ClientHandler>, id: byte)
    requires Mirrors(m, cs)
    ensures id in m <==> exists i :: 0 <= i < |cs| && cs[i].clientID == id
  {
  }

  /** From the registry to the player slots: in a quiet state, the slots that a registered client's
      listener assigns after the last list it has taken hold the smallest registered ids in ascending
      order, if that list is the server's own and ids are distinct. A registered client is shown exactly
      if fewer than seven registered ids are smaller. */
  lemma SlotsFollowRegistry(host: HostOrder, actions: seq<Action>, k: nat, start: ClientState,
                            players: seq<ConnectedPlayer>)
    requires |players| == MAX_PLAYERS && Run(host, actions).Some?
    requires var s := Run(host, actions).value;
             && Quiet(s) && DistinctIds(s.clients) && k < |s.sent| && Holds(s.clients, k)
             && OwnLast(s, k, CLIENT_LIST_MESSAGE)
    ensures var s := Run(host, actions).value;
            var t := TakeAll(host, start, Messages(s.sent[k]));
            && t.announced != []
            && var slots := AssignSlots(players, t.announced[|t.announced| - 1]);
               && (forall i, j :: 0 <= i < j < MAX_PLAYERS && slots[j].id != -1 ==> slots[i].id < slots[j].id)
               && (forall id: byte :: Slotted(slots, id) <==>
                     && (exists i :: 0 <= i < |s.clients| && s.clients[i].clientID == id)
                     && |Below(t.members.Keys, id)| < MAX_PLAYERS)
               && (forall id: byte :: id in t.members <==>
                     exists i :: 0 <= i < |s.clients| && s.clients[i].clientID == id)
  {
    var s := Run(host, actions).value;
    var ms := Messages(s.sent[k]);
    OwnListMirrors(host, actions, k, start);
    LastSentDecides(s.sent[k], CLIENT_LIST_MESSAGE);
    SlotsFollowLists(host, start, ms, players);
    forall id: byte
      ensures id in TakeAll(host, start, ms).members <==>
              exists i :: 0 <= i < |s.clients| && s.clients[i].clientID == id
    {
      MirrorIds(TakeAll(host, start, ms).members, s.clients, id);
    }
  }
}
