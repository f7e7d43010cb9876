/** Membership and ids over a whole run: what the clients are told, whom they believe, and that
    they come to agree. */
module RelayLists {
  import opened Bytes
  import opened Wire
  import opened ClientList
  import opened ServerSide
  import opened Relay
  import opened RelayChannels
  import opened ClientSide

  function Messages(es: seq<Sent>): (r: seq<BaseMessage>)
    ensures |r| == |es|
  {
    seq(|es|, i requires 0 <= i < |es| => es[i].msg)
  }

  /** The last frame of type `t` on a connection, whoever it came from. */
  function LastSent(es: seq<Sent>, t: byte): (r: Option<Sent>)
    ensures r.Some? ==> r.value in es && r.value.msg.messageType == t
  {
    if es == [] then None
    else if es[|es| - 1].msg.messageType == t then Some(es[|es| - 1])
    else LastSent(es[..|es| - 1], t)
  }

  /** The last message of type `t` that the server sent on its own account. */
  function LastOwn(es: seq<Sent>, t: byte): Option<BaseMessage> {
    if es == [] then None
    else if es[|es| - 1].msg.messageType == t && es[|es| - 1].origin == FromServer then Some(es[|es| - 1].msg)
    else LastOwn(es[..|es| - 1], t)
  }

  /** No accept or disconnect is between its registry change and its notification. */
  predicate Quiet(s: State) {
    && (s.accepting == Waiting || s.accepting == Listed)
    && forall k :: 0 <= k < |s.threads| ==> s.threads[k] != Erased
  }

  /** No client ever sent a message of type `t`. */
  predicate NoneRead(s: State, t: byte) {
    forall k :: 0 <= k < |s.read| ==> forall i :: 0 <= i < |s.read[k]| ==> s.read[k][i].messageType != t
  }

  /** The last frame of type `t` on connection `k` is there, and is the server's own. */
  predicate OwnLast(s: State, k: nat, t: byte)
    requires k < |s.sent|
  {
    var last := LastSent(s.sent[k], t);
    last.Some? && last.value.origin == FromServer
  }

  lemma LastOwnPush(es: seq<Sent>, e: Sent, t: byte)
    ensures LastOwn(es + [e], t)
         == if e.msg.messageType == t && e.origin == FromServer then Some(e.msg) else LastOwn(es, t)
  {
    assert (es + [e])[..|es|] == es;
  }

  lemma LastSentPush(es: seq<Sent>, e: Sent, t: byte)
    ensures LastSent(es + [e], t) == if e.msg.messageType == t then Some(e) else LastSent(es, t)
  {
    assert (es + [e])[..|es|] == es;
  }

  /** What a client believes is the last frame; if that is the server's own, it is the server's last. */
  lemma {:induction false} LastSentDecides(es: seq<Sent>, t: byte)
    ensures LastOf(Messages(es), t) == match LastSent(es, t) case None => None case Some(e) => Some(e.msg)
    ensures LastOwn(es, t).Some? ==> LastSent(es, t).Some?
    ensures match LastSent(es, t)
            case None => true
            case Some(e) => e.origin == FromServer ==> LastOwn(es, t) == Some(e.msg)
  {
    if es == [] {
    } else {
      LastSentDecides(es[..|es| - 1], t);
      assert Messages(es)[..|es| - 1] == Messages(es[..|es| - 1]);
    }
  }

  /** A message being relayed is the last one read. */
  lemma RelayingWasRead(s: State, k: nat)
    requires Sizes(s) && k < |s.accepted| && Follows(s, k) && s.threads[k].Relaying?
    ensures s.read[k] != [] && Stamp(IdOf(k), s.read[k][|s.read[k]| - 1]) == Stamp(IdOf(k), s.threads[k].msg)
  {
    var all := Select(RelayedFor(k), s.log);
    var last := Stamped(k, [s.threads[k].msg]);
    assert (all + last)[|all|] == last[0];
  }

  lemma RunPush(host: HostOrder, actions: seq<Action>, a: Action)
    requires Run(host, actions).Some? && Enabled(Run(host, actions).value, a)
    ensures Run(host, actions + [a]) == Some(Next(host, Run(host, actions).value, a))
  {
    assert (actions + [a])[..|actions|] == actions;
  }

  // ---------------------------------------------------------------- provenance

  /** A frame is either the server's own (a list or an id) or a stamped copy of a message the
      server read from the client it is relayed for. */
  predicate Justified(s: State, e: Sent) {
    match e.origin
    case FromServer =>
      || (e.msg.messageType == CLIENT_LIST_MESSAGE && e.msg.senderID == 0)
      || (e.msg.messageType == CLIENT_ID_MESSAGE && e.msg.message == [])
    case FromClient(k) => k < |s.read| && exists i :: 0 <= i < |s.read[k]| && AsRead(e, s.read[k][i], k)
  }

  predicate AllJustified(s: State) {
    forall c :: 0 <= c < |s.sent| ==> forall i :: 0 <= i < |s.sent[c]| ==> Justified(s, s.sent[c][i])
  }

  lemma JustifiedStays(host: HostOrder, s: State, a: Action, e: Sent)
    requires Sizes(s) && Enabled(s, a) && Justified(s, e)
    ensures Justified(Next(host, s, a), e)
  {
    if e.origin.FromClient? {
      var k := e.origin.socket;
      var i :| 0 <= i < |s.read[k]| && AsRead(e, s.read[k][i], k);
      assert Next(host, s, a).read[k][i] == s.read[k][i];
    }
  }

  /** The frame a step may append to connections. */
  function NewFrame(host: HostOrder, s: State, a: Action): Sent
    requires Enabled(s, a)
  {
    match a
    case SendId => Sent(IdMessage(s.accepted[|s.accepted| - 1].clientID), FromServer)
    case Broadcast(k) => Sent(Stamp(s.accepted[k].clientID, s.threads[k].msg), FromClient(k))
    case _ => Sent(ListMessage(host, s.clients), FromServer)
  }

  lemma OneFrameAtMost(host: HostOrder, s: State, a: Action, c: nat)
    requires Sizes(s) && Enabled(s, a)
    ensures var t := Next(host, s, a);
            var before := if c < |s.sent| then s.sent[c] else [];
            c < |t.sent| ==> t.sent[c] == before || (c < |s.sent| && t.sent[c] == before + [NewFrame(host, s, a)])
  {
  }

  lemma NewFrameJustified(host: HostOrder, s: State, a: Action)
    requires Shape(s) && LogFollowsReads(s) && Enabled(s, a)
    ensures Justified(Next(host, s, a), NewFrame(host, s, a))
  {
    if a.Broadcast? {
      assert Follows(s, a.k);
      RelayingWasRead(s, a.k);
      JustifiedStays(host, s, a, NewFrame(host, s, a));
    }
  }

  /** No frame on any connection is invented, altered or redirected in type and payload. */
  lemma {:induction false} FramesAreJustified(host: HostOrder, actions: seq<Action>)
    requires Run(host, actions).Some?
    ensures AllJustified(Run(host, actions).value)
  {
    if actions == [] {
    } else {
      var init, a := actions[..|actions| - 1], actions[|actions| - 1];
      var s, t := Run(host, init).value, Run(host, actions).value;
      FramesAreJustified(host, init);
      LogFollowsReadsAlways(host, init);
      NewFrameJustified(host, s, a);
      forall c, i | 0 <= c < |t.sent| && 0 <= i < |t.sent[c]|
        ensures Justified(t, t.sent[c][i])
      {
        OneFrameAtMost(host, s, a, c);
        if c < |s.sent| && i < |s.sent[c]| {
          JustifiedStays(host, s, a, s.sent[c][i]);
        }
      }
    }
  }

  /** If no client sends an empty event, no connection carries one. */
  lemma ChannelEventsCarryData(host: HostOrder, actions: seq<Action>, c: nat)
    requires Run(host, actions).Some?
    requires var s := Run(host, actions).value;
             c < |s.sent| && forall k :: 0 <= k < |s.read| ==> EventsCarryData(s.read[k])
    ensures EventsCarryData(Messages(Run(host, actions).value.sent[c]))
  {
    var s := Run(host, actions).value;
    FramesAreJustified(host, actions);
    var ms := Messages(s.sent[c]);
    forall i | 0 <= i < |ms| && ms[i].messageType == EVENT_MESSAGE
      ensures ms[i].message != []
    {
      var e := s.sent[c][i];
      assert Justified(s, e);
      if e.origin.FromClient? {
        var k := e.origin.socket;
        var j :| 0 <= j < |s.read[k]| && AsRead(e, s.read[k][j], k);
        assert EventsCarryData(s.read[k]);
      }
    }
  }

  /** Where no client sent messages of a type, the last one on a connection is the server's own. */
  lemma UnforgedIsOwn(host: HostOrder, actions: seq<Action>, k: nat, t: byte)
    requires Run(host, actions).Some?
    requires var s := Run(host, actions).value;
             NoneRead(s, t) && k < |s.sent| && LastSent(s.sent[k], t).Some?
    ensures OwnLast(Run(host, actions).value, k, t)
  {
    var s := Run(host, actions).value;
    FramesAreJustified(host, actions);
    var e := LastSent(s.sent[k], t).value;
    var i :| 0 <= i < |s.sent[k]| && s.sent[k][i] == e;
    assert Justified(s, e);
  }

  // ---------------------------------------------------------------- the last list sent

  /** The server's own last client list on connection `k` is the current registry. */
  predicate Current(host: HostOrder, s: State, k: nat)
    requires k < |s.sent|
  {
    LastOwn(s.sent[k], CLIENT_LIST_MESSAGE) == Some(ListMessage(host, s.clients))
  }

  predicate ListsCurrent(host: HostOrder, s: State)
    requires Sizes(s)
  {
    Quiet(s) ==> forall k :: 0 <= k < |s.accepted| && Holds(s.clients, k) ==> Current(host, s, k)
  }

  lemma CurrentAfterListing(host: HostOrder, s: State, a: Action, k: nat)
    requires Shape(s) && Enabled(s, a) && (a.ListAccepted? || a.ListErased?)
    requires k < |s.accepted| && Holds(s.clients, k)
    ensures Current(host, Next(host, s, a), k)
  {
    LastOwnPush(s.sent[k], Sent(ListMessage(host, s.clients), FromServer), CLIENT_LIST_MESSAGE);
  }

  lemma CurrentAfterBroadcast(host: HostOrder, s: State, from: nat, k: nat)
    requires Shape(s) && Enabled(s, Broadcast(from)) && k < |s.accepted| && Current(host, s, k)
    ensures Current(host, Next(host, s, Broadcast(from)), k)
  {
    var e := Sent(Stamp(s.accepted[from].clientID, s.threads[from].msg), FromClient(from));
    LastOwnPush(s.sent[k], e, CLIENT_LIST_MESSAGE);
  }

  lemma ErasePends(host: HostOrder, s: State, k: nat)
    requires Sizes(s) && Enabled(s, Erase(k))
    ensures !Quiet(Next(host, s, Erase(k)))
  {
    assert Next(host, s, Erase(k)).threads[k] == Erased;
  }

  lemma QuietBefore(host: HostOrder, s: State, a: Action)
    requires Shape(s) && Enabled(s, a) && Quiet(Next(host, s, a)) && (a.Broadcast? || a.StartThread? || a.Read?)
    ensures Quiet(s)
  {
    var t := Next(host, s, a);
    forall k | 0 <= k < |s.threads|
      ensures s.threads[k] != Erased
    {
      assert t.threads[k] != Erased;
    }
  }

  lemma ListsCurrentKept(host: HostOrder, s: State, a: Action)
    requires Shape(s) && ListsCurrent(host, s) && Enabled(s, a) && Shape(Next(host, s, a))
    ensures ListsCurrent(host, Next(host, s, a))
  {
    var t := Next(host, s, a);
    if a.Erase? {
      ErasePends(host, s, a.k);
    } else if Quiet(t) {
      forall k | 0 <= k < |t.accepted| && Holds(t.clients, k)
        ensures Current(host, t, k)
      {
        match a
        case Accept(_, _) =>
        case SendId =>
        case ListAccepted => CurrentAfterListing(host, s, a, k);
        case ListErased(_) => CurrentAfterListing(host, s, a, k);
        case Broadcast(from) =>
          QuietBefore(host, s, a);
          CurrentAfterBroadcast(host, s, from, k);
        case Erase(_) =>
        case _ =>
          QuietBefore(host, s, a);
          assert Current(host, s, k);
      }
    }
  }

  /** In every reachable state where no notification is outstanding, whatever clients have sent,
      the server's own last list on every registered connection is the registry. */
  lemma {:induction false} ListsCurrentAlways(host: HostOrder, actions: seq<Action>)
    requires Run(host, actions).Some?
    ensures var s := Run(host, actions).value; Shape(s) && ListsCurrent(host, s)
  {
    if actions == [] {
    } else {
      var init, last := actions[..|actions| - 1], actions[|actions| - 1];
      ListsCurrentAlways(host, init);
      ShapeAlways(host, actions);
      ListsCurrentKept(host, Run(host, init).value, last);
    }
  }

  lemma RegistryMirrored(host: HostOrder, s: State)
    requires Registry(s)
    ensures Mirrors(Directory(ParseList(host, EncodeList(host, s.clients))), s.clients) <==> Consistent(s.clients)
  {
    forall i | 0 <= i < |s.clients|
      ensures |s.clients[i].ipAddress| < 0x100
    {
      RegistryEntry(s, i);
    }
    DirectoryMirrors(host, s.clients);
  }

  /** When membership is right, exactly. In every quiet reachable state a registered client that has
      taken everything sent to it, whatever it started with, holds exactly the server's registry if
      and only if the last list on its connection is the server's own and no two entries of the
      registry contradict each other, or is a client's that happens to say the same. */
  lemma MirrorsExactly(host: HostOrder, actions: seq<Action>, k: nat, start: ClientState)
    requires Run(host, actions).Some?
    requires var s := Run(host, actions).value; Quiet(s) && k < |s.sent| && Holds(s.clients, k)
    ensures var s := Run(host, actions).value;
            var last := LastSent(s.sent[k], CLIENT_LIST_MESSAGE);
            && last.Some?
            && (Mirrors(TakeAll(host, start, Messages(s.sent[k])).members, s.clients)
                <==> if last.value.origin == FromServer then Consistent(s.clients)
                     else Mirrors(Directory(ParseList(host, last.value.msg.message)), s.clients))
  {
    var s := Run(host, actions).value;
    ListsCurrentAlways(host, actions);
    assert Current(host, s, k);
    LastSentDecides(s.sent[k], CLIENT_LIST_MESSAGE);
    TakeAllLast(host, start, Messages(s.sent[k]));
    RegistryMirrored(host, s);
  }

  /** So, while the ids are distinct, a client whose last list is the server's own mirrors the
      registry, whatever forged lists came before. */
  lemma OwnListMirrors(host: HostOrder, actions: seq<Action>, k: nat, start: ClientState)
    requires Run(host, actions).Some?
    requires var s := Run(host, actions).value;
             && Quiet(s) && DistinctIds(s.clients) && k < |s.sent| && Holds(s.clients, k)
             && OwnLast(s, k, CLIENT_LIST_MESSAGE)
    ensures var s := Run(host, actions).value;
            Mirrors(TakeAll(host, start, Messages(s.sent[k])).members, s.clients)
  {
    MirrorsExactly(host, actions, k, start);
    DistinctIsConsistent(Run(host, actions).value.clients);
  }

  /** That is the case in particular if no client ever sent a list. */
  lemma MembershipMirrorsRegistry(host: HostOrder, actions: seq<Action>, k: nat, start: ClientState)
    requires Run(host, actions).Some?
    requires var s := Run(host, actions).value;
             && NoneRead(s, CLIENT_LIST_MESSAGE) && Quiet(s) && DistinctIds(s.clients)
             && k < |s.sent| && Holds(s.clients, k)
    ensures var s := Run(host, actions).value;
            Mirrors(TakeAll(host, start, Messages(s.sent[k])).members, s.clients)
  {
    MirrorsExactly(host, actions, k, start);
    DistinctIsConsistent(Run(host, actions).value.clients);
    UnforgedIsOwn(host, actions, k, CLIENT_LIST_MESSAGE);
  }

  /** Any two registered clients whose last list is the server's own agree, forged lists or not,
      and with ids used twice or not. */
  lemma MembershipConverges(host: HostOrder, actions: seq<Action>, k: nat, j: nat, a: ClientState, b: ClientState)
    requires Run(host, actions).Some?
    requires var s := Run(host, actions).value;
             && Quiet(s) && k < |s.sent| && Holds(s.clients, k) && j < |s.sent| && Holds(s.clients, j)
             && (NoneRead(s, CLIENT_LIST_MESSAGE)
                 || (OwnLast(s, k, CLIENT_LIST_MESSAGE) && OwnLast(s, j, CLIENT_LIST_MESSAGE)))
    ensures var s := Run(host, actions).value;
            TakeAll(host, a, Messages(s.sent[k])).members == TakeAll(host, b, Messages(s.sent[j])).members
  {
    var s := Run(host, actions).value;
    ListsCurrentAlways(host, actions);
    assert Current(host, s, k) && Current(host, s, j);
    LastSentDecides(s.sent[k], CLIENT_LIST_MESSAGE);
    LastSentDecides(s.sent[j], CLIENT_LIST_MESSAGE);
    if NoneRead(s, CLIENT_LIST_MESSAGE) {
      UnforgedIsOwn(host, actions, k, CLIENT_LIST_MESSAGE);
      UnforgedIsOwn(host, actions, j, CLIENT_LIST_MESSAGE);
    }
    TakeAllLast(host, a, Messages(s.sent[k]));
    TakeAllLast(host, b, Messages(s.sent[j]));
  }

  // ---------------------------------------------------------------- forged frames

  /** One message read from `k` and relayed, as it arrives on another registered connection. */
  lemma RelayedAtOnce(host: HostOrder, actions: seq<Action>, k: nat, m: BaseMessage, c: nat)
    returns (after: State)
    requires Run(host, actions).Some? && Fits(m)
    requires var s := Run(host, actions).value;
             && k < |s.threads| && s.threads[k] == Reading
             && c < |s.sent| && Holds(s.clients, c) && IdOf(c) != IdOf(k)
    ensures var s := Run(host, actions).value;
            && Run(host, actions + [Read(k, m)] + [Broadcast(k)]) == Some(after)
            && after.clients == s.clients && after.accepted == s.accepted && after.accepting == s.accepting
            && c < |after.sent| && after.sent[c] == s.sent[c] + [Sent(Stamp(IdOf(k), m), FromClient(k))]
  {
    var s := Run(host, actions).value;
    ShapeAlways(host, actions);
    RunPush(host, actions, Read(k, m));
    var read := actions + [Read(k, m)];
    ShapeAlways(host, read);
    RunPush(host, read, Broadcast(k));
    RegistryNumbered(s);
    HoldsWithout(s.clients, IdOf(k), c);
    after := Run(host, read + [Broadcast(k)]).value;
  }

  /** The failing side is reachable: from any reachable state, one list message sent by a client
      takes over the membership of every other registered client, without a change to the
      registry; an empty one makes it wrong. */
  lemma ForgedListTakesOver(host: HostOrder, actions: seq<Action>, k: nat, c: nat, payload: seq<byte>,
                            start: ClientState)
    requires Run(host, actions).Some? && |payload| + 2 < U32_LIMIT
    requires var s := Run(host, actions).value;
             && k < |s.threads| && s.threads[k] == Reading
             && c < |s.sent| && Holds(s.clients, c) && IdOf(c) != IdOf(k)
    ensures var forged := BaseMessage(CLIENT_LIST_MESSAGE, 0, payload);
            var after := Run(host, actions + [Read(k, forged)] + [Broadcast(k)]);
            && after.Some? && after.value.clients == Run(host, actions).value.clients
            && c < |after.value.sent|
            && var members := TakeAll(host, start, Messages(after.value.sent[c])).members;
               members == Directory(ParseList(host, payload))
               && (payload == [] ==> !Mirrors(members, after.value.clients))
  {
    var s := Run(host, actions).value;
    var forged := BaseMessage(CLIENT_LIST_MESSAGE, 0, payload);
    var t := RelayedAtOnce(host, actions, k, forged, c);
    LastSentPush(s.sent[c], Sent(Stamp(IdOf(k), forged), FromClient(k)), CLIENT_LIST_MESSAGE);
    LastSentDecides(t.sent[c], CLIENT_LIST_MESSAGE);
    TakeAllLast(host, start, Messages(t.sent[c]));
    if payload == [] {
      var i :| 0 <= i < |s.clients| && s.clients[i].socket == c;
      assert s.clients[i].clientID !in Directory(ParseList(host, payload));
    }
  }

  /** But not for longer than until the next notification, for whatever reason that comes: it sets
      every registered client right again. */
  lemma NotificationRepairs(host: HostOrder, actions: seq<Action>, a: Action, k: nat, start: ClientState)
    requires Run(host, actions).Some? && (a.ListAccepted? || a.ListErased?)
    requires var s := Run(host, actions).value;
             Enabled(s, a) && DistinctIds(s.clients) && k < |s.sent| && Holds(s.clients, k)
    ensures var after := Run(host, actions + [a]);
            && after.Some? && after.value.clients == Run(host, actions).value.clients && k < |after.value.sent|
            && Mirrors(TakeAll(host, start, Messages(after.value.sent[k])).members, after.value.clients)
  {
    var s := Run(host, actions).value;
    ShapeAlways(host, actions);
    RunPush(host, actions, a);
    var e := Sent(ListMessage(host, s.clients), FromServer);
    var t := Next(host, s, a);
    assert t.sent[k] == s.sent[k] + [e];
    LastSentPush(s.sent[k], e, CLIENT_LIST_MESSAGE);
    LastSentDecides(t.sent[k], CLIENT_LIST_MESSAGE);
    TakeAllLast(host, start, Messages(t.sent[k]));
    RegistryMirrored(host, s);
    DistinctIsConsistent(s.clients);
  }

  // ---------------------------------------------------------------- the own id

  /** The accept thread has sent client `k` its id. */
  predicate IsGreeted(s: State, k: nat) {
    k < |s.accepted| && (k + 1 < |s.accepted| || s.accepting != Pushed)
  }

  /** The server's own last id message on connection `k` is the client's id. */
  predicate Greeting(s: State, k: nat)
    requires k < |s.sent|
  {
    LastOwn(s.sent[k], CLIENT_ID_MESSAGE) == Some(IdMessage(IdOf(k)))
  }

  predicate AllGreeted(s: State)
    requires Sizes(s)
  {
    forall k :: 0 <= k < |s.accepted| && IsGreeted(s, k) ==> Greeting(s, k)
  }

  lemma GreetingKept(host: HostOrder, s: State, a: Action, k: nat)
    requires Shape(s) && Enabled(s, a) && k < |s.accepted|
    requires (a.SendId? && k == |s.accepted| - 1) || Greeting(s, k)
    ensures Sizes(Next(host, s, a)) && Greeting(Next(host, s, a), k)
  {
    OneFrameAtMost(host, s, a, k);
    LastOwnPush(s.sent[k], NewFrame(host, s, a), CLIENT_ID_MESSAGE);
  }

  /** In every reachable state the server's own last id message on a greeted client's connection is
      the client's id. */
  lemma {:induction false} AllGreetedAlways(host: HostOrder, actions: seq<Action>)
    requires Run(host, actions).Some?
    ensures var s := Run(host, actions).value; Shape(s) && AllGreeted(s)
  {
    ShapeAlways(host, actions);
    if actions == [] {
    } else {
      var init, a := actions[..|actions| - 1], actions[|actions| - 1];
      var s, t := Run(host, init).value, Run(host, actions).value;
      AllGreetedAlways(host, init);
      forall k | 0 <= k < |t.accepted| && IsGreeted(t, k)
        ensures Greeting(t, k)
      {
        GreetingKept(host, s, a, k);
      }
    }
  }

  /** A relayed frame bears the id of the client it came from, and never the receiver's. */
  lemma RelayedIdIsForeign(host: HostOrder, actions: seq<Action>, c: nat, e: Sent)
    requires Run(host, actions).Some?
    requires var s := Run(host, actions).value; c < |s.sent| && e in s.sent[c] && e.origin.FromClient?
    ensures e.msg.senderID == IdOf(e.origin.socket) != IdOf(c)
  {
    var s := Run(host, actions).value;
    ChannelsHearAlways(host, actions);
    FramesAreJustified(host, actions);
    var i :| 0 <= i < |s.sent[c]| && s.sent[c][i] == e;
    assert Justified(s, e);
    SelectMember(AnyRelayed, s.sent[c], e);
    SelectMember(NotStamped(IdOf(c)), s.log[s.joinedAt[c]..End(s, c)], e);
  }

  /** When a client knows its id, exactly. Once greeted, a client that has taken everything sent to
      it has the id the registry has for it if and only if the last id message on its connection is
      the server's own; otherwise it has taken the id of the client that sent that message. */
  lemma KnowsItsIdExactly(host: HostOrder, actions: seq<Action>, k: nat, start: ClientState)
    requires Run(host, actions).Some? && IsGreeted(Run(host, actions).value, k)
    ensures var s := Run(host, actions).value;
            && k < |s.sent| && LastSent(s.sent[k], CLIENT_ID_MESSAGE).Some?
            && var id := TakeAll(host, start, Messages(s.sent[k])).clientID;
               && (id == s.accepted[k].clientID <==> OwnLast(s, k, CLIENT_ID_MESSAGE))
               && match LastSent(s.sent[k], CLIENT_ID_MESSAGE).value.origin
                  case FromServer => id == IdOf(k)
                  case FromClient(j) => id == IdOf(j)
  {
    var s := Run(host, actions).value;
    AllGreetedAlways(host, actions);
    assert Greeting(s, k);
    LastSentDecides(s.sent[k], CLIENT_ID_MESSAGE);
    TakeAllLast(host, start, Messages(s.sent[k]));
    var last := LastSent(s.sent[k], CLIENT_ID_MESSAGE).value;
    if last.origin.FromClient? {
      RelayedIdIsForeign(host, actions, k, last);
    }
  }

  /** So every greeted client knows its id, if no client forged an id message. */
  lemma ClientsKnowTheirIds(host: HostOrder, actions: seq<Action>, k: nat, start: ClientState)
    requires Run(host, actions).Some?
    requires var s := Run(host, actions).value; NoneRead(s, CLIENT_ID_MESSAGE) && IsGreeted(s, k)
    ensures var s := Run(host, actions).value;
            k < |s.sent| && TakeAll(host, start, Messages(s.sent[k])).clientID == s.accepted[k].clientID
  {
    KnowsItsIdExactly(host, actions, k, start);
    UnforgedIsOwn(host, actions, k, CLIENT_ID_MESSAGE);
  }

  /** And if one does, every other registered client of another id takes the forger's id. */
  lemma ForgedIdRenames(host: HostOrder, actions: seq<Action>, k: nat, c: nat, m: BaseMessage, start: ClientState)
    requires Run(host, actions).Some? && Fits(m) && m.messageType == CLIENT_ID_MESSAGE
    requires var s := Run(host, actions).value;
             && k < |s.threads| && s.threads[k] == Reading
             && c < |s.sent| && Holds(s.clients, c) && IdOf(c) != IdOf(k)
    ensures var after := Run(host, actions + [Read(k, m)] + [Broadcast(k)]);
            && after.Some? && c < |after.value.sent| && c < |after.value.accepted|
            && TakeAll(host, start, Messages(after.value.sent[c])).clientID
               == IdOf(k) != after.value.accepted[c].clientID
  {
    var s := Run(host, actions).value;
    ShapeAlways(host, actions);
    var t := RelayedAtOnce(host, actions, k, m, c);
    LastSentPush(s.sent[c], Sent(Stamp(IdOf(k), m), FromClient(k)), CLIENT_ID_MESSAGE);
    LastSentDecides(t.sent[c], CLIENT_ID_MESSAGE);
    TakeAllLast(host, start, Messages(t.sent[c]));
  }

  // ---------------------------------------------------------------- settling

  predicate Notifies(a: Action) {
    a.SendId? || a.ListAccepted? || a.ListErased?
  }

  predicate AllNotify(actions: seq<Action>) {
    forall i :: 0 <= i < |actions| ==> Notifies(actions[i])
  }

  lemma SettleAccept(host: HostOrder, actions: seq<Action>) returns (more: seq<Action>)
    requires Run(host, actions).Some?
    ensures AllNotify(more) && Run(host, actions + more).Some?
    ensures var s, t := Run(host, actions).value, Run(host, actions + more).value;
            t.clients == s.clients && (t.accepting == Waiting || t.accepting == Listed)
  {
    ShapeAlways(host, actions);
    var s := Run(host, actions).value;
    more := [];
    assert actions + [] == actions;
    if s.accepting == Pushed {
      RunPush(host, actions, SendId);
      more := [SendId];
    }
    if s.accepting == Pushed || s.accepting == Greeted {
      RunPush(host, actions + more, ListAccepted);
      ConcatAssociates(actions, more, [ListAccepted]);
      more := more + [ListAccepted];
    }
  }

  /** Nothing is outstanding but, perhaps, for the threads from `k` on. */
  predicate SettledBelow(s: State, k: nat) {
    && (s.accepting == Waiting || s.accepting == Listed)
    && k <= |s.threads|
    && forall i :: 0 <= i < k ==> s.threads[i] != Erased
  }

  lemma SettleThread(host: HostOrder, actions: seq<Action>, k: nat) returns (more: seq<Action>)
    requires Run(host, actions).Some?
    requires var s := Run(host, actions).value; SettledBelow(s, k) && k < |s.threads|
    ensures AllNotify(more) && Run(host, actions + more).Some?
    ensures var s, t := Run(host, actions).value, Run(host, actions + more).value;
            t.clients == s.clients && |t.threads| == |s.threads| && SettledBelow(t, k + 1)
  {
    ShapeAlways(host, actions);
    if Run(host, actions).value.threads[k] == Erased {
      RunPush(host, actions, ListErased(k));
      more := [ListErased(k)];
    } else {
      more := [];
      assert actions + [] == actions;
    }
  }

  lemma {:induction false} SettleThreads(host: HostOrder, actions: seq<Action>, k: nat) returns (more: seq<Action>)
    requires Run(host, actions).Some? && SettledBelow(Run(host, actions).value, k)
    ensures AllNotify(more) && Run(host, actions + more).Some?
    ensures var s, t := Run(host, actions).value, Run(host, actions + more).value; t.clients == s.clients && Quiet(t)
    decreases |Run(host, actions).value.threads| - k
  {
    if k == |Run(host, actions).value.threads| {
      more := [];
      assert actions + [] == actions;
    } else {
      var one := SettleThread(host, actions, k);
      var rest := SettleThreads(host, actions + one, k + 1);
      ConcatAssociates(actions, one, rest);
      more := one + rest;
    }
  }

  /** From every reachable state the outstanding notifications alone lead to a quiet state with
      the same registry: no client has to act, and nothing blocks them. */
  lemma NotificationsSettle(host: HostOrder, actions: seq<Action>) returns (more: seq<Action>)
    requires Run(host, actions).Some?
    ensures AllNotify(more) && Run(host, actions + more).Some?
    ensures var s, t := Run(host, actions).value, Run(host, actions + more).value; t.clients == s.clients && Quiet(t)
  {
    var first := SettleAccept(host, actions);
    var second := SettleThreads(host, actions + first, 0);
    ConcatAssociates(actions, first, second);
    more := first + second;
  }
}
