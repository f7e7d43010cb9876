/** The server as a system of interleaved atomic steps: the accept thread and one thread per
    client, sharing the registry. Each step is one critical section or one frame. */
module Relay {
  import opened Bytes
  import opened Wire
  import opened ClientList
  import opened ServerSide

  datatype Origin = FromServer | FromClient(socket: nat)

  /** A frame on a connection, with the connection it was relayed for. */
  datatype Sent = Sent(msg: BaseMessage, origin: Origin)

  /** Where the accept thread stands with the connection it accepted last. */
  datatype AcceptPc = Waiting | Pushed | Greeted | Listed

  datatype ThreadPc = NotStarted | Reading | Relaying(msg: BaseMessage) | Erased | Finished

  /** `clients`, `nextClientID`, the channels and the program counters are the server's state.
      The rest is history: every handler accepted, what was read from each client, the order of
      all broadcasts, and where in that order each client entered and left the registry. */
  datatype State = State(
    clients: seq<ClientHandler>, nextClientID: byte, sent: seq<seq<Sent>>,
    accepting: AcceptPc, threads: seq<ThreadPc>,
    accepted: seq<ClientHandler>, read: seq<seq<BaseMessage>>, log: seq<Sent>,
    joinedAt: seq<nat>, leftAt: seq<Option<nat>>)

  datatype Action =
    | Accept(ipAddress: seq<byte>, port: u16)
    | SendId
    | ListAccepted
    | StartThread
    | Read(k: nat, msg: BaseMessage)
    | Broadcast(k: nat)
    | Erase(k: nat)
    | ListErased(k: nat)

  const INIT := State([], 1, [], Waiting, [], [], [], [], [], [])

  /** Characters `inet_ntop` can leave in a buffer of INET_ADDRSTRLEN bytes. */
  const MAX_ADDRESS := 15

  predicate InThread(s: State, k: nat) {
    k < |s.threads| && k < |s.accepted| && k < |s.read|
  }

  predicate Enabled(s: State, a: Action) {
    match a
    case Accept(ip, _) => s.accepting == Waiting && |ip| <= MAX_ADDRESS
    case SendId => s.accepting == Pushed && 0 < |s.accepted| <= |s.sent|
    case ListAccepted => s.accepting == Greeted
    case StartThread => s.accepting == Listed && 0 < |s.accepted| <= |s.threads|
    case Read(k, m) => InThread(s, k) && s.threads[k] == Reading && Fits(m)
    case Broadcast(k) => InThread(s, k) && s.threads[k].Relaying?
    case Erase(k) => InThread(s, k) && s.threads[k] == Reading
    case ListErased(k) => InThread(s, k) && s.threads[k] == Erased
  }

  function SendList(host: HostOrder, s: State): seq<seq<Sent>> {
    Append(s.sent, s.clients, [Sent(ListMessage(host, s.clients), FromServer)])
  }

  /** The registry positions that an erase by id empties leave at the current end of the log. */
  function Leave(s: State, id: byte): (r: seq<Option<nat>>)
    ensures |r| == |s.leftAt|
  {
    seq(|s.leftAt|, c requires 0 <= c < |s.leftAt| =>
      if s.leftAt[c] == None && IdOf(c) == id then Some(|s.log|) else s.leftAt[c])
  }

  function Next(host: HostOrder, s: State, a: Action): State
    requires Enabled(s, a)
  {
    match a
    case Accept(ip, port) =>
      var h := ClientHandler(|s.accepted|, s.nextClientID, ip, port);
      s.(clients := s.clients + [h], nextClientID := (s.nextClientID + 1) % 0x100,
         sent := s.sent + [[]], accepting := Pushed, threads := s.threads + [NotStarted],
         accepted := s.accepted + [h], read := s.read + [[]],
         joinedAt := s.joinedAt + [|s.log|], leftAt := s.leftAt + [None])
    case SendId =>
      var k := |s.accepted| - 1;
      var e := Sent(IdMessage(s.accepted[k].clientID), FromServer);
      s.(sent := s.sent[k := s.sent[k] + [e]], accepting := Greeted)
    case ListAccepted =>
      s.(sent := SendList(host, s), accepting := Listed)
    case StartThread =>
      s.(threads := s.threads[|s.accepted| - 1 := Reading], accepting := Waiting)
    case Read(k, m) =>
      s.(threads := s.threads[k := Relaying(m)], read := s.read[k := s.read[k] + [m]])
    case Broadcast(k) =>
      var id := s.accepted[k].clientID;
      var e := Sent(Stamp(id, s.threads[k].msg), FromClient(k));
      s.(sent := Append(s.sent, Without(s.clients, id), [e]), log := s.log + [e],
         threads := s.threads[k := Reading])
    case Erase(k) =>
      var id := s.accepted[k].clientID;
      s.(clients := Without(s.clients, id), leftAt := Leave(s, id), threads := s.threads[k := Erased])
    case ListErased(k) =>
      s.(sent := SendList(host, s), threads := s.threads[k := Finished])
  }

  /** The state a sequence of actions leads to, if each is enabled when its turn comes. */
  function Run(host: HostOrder, actions: seq<Action>): Option<State> {
    if actions == [] then Some(INIT)
    else
      var last := actions[|actions| - 1];
      match Run(host, actions[..|actions| - 1])
      case None => None
      case Some(s) => if Enabled(s, last) then Some(Next(host, s, last)) else None
  }

  /** The id of the k-th accepted client, k from 0. */
  function IdOf(k: nat): byte {
    (1 + k) % 0x100
  }

  // ---------------------------------------------------------------- registry and ids

  predicate Numbered(cs: seq<ClientHandler>) {
    forall i :: 0 <= i < |cs| ==> cs[i].clientID == IdOf(cs[i].socket)
  }

  predicate Sizes(s: State) {
    var n := |s.accepted|;
    |s.sent| == n && |s.threads| == n && |s.read| == n && |s.joinedAt| == n && |s.leftAt| == n
  }

  /** The accept thread is busy exactly with the newest client, whose own thread waits for it. */
  predicate AcceptInStep(s: State)
    requires Sizes(s)
  {
    s.accepting != Waiting ==> s.accepted != [] && s.threads[|s.accepted| - 1] == NotStarted
  }

  predicate Registry(s: State) {
    && (forall i :: 0 <= i < |s.clients| ==> s.clients[i] in s.accepted && s.clients[i].socket < |s.accepted|)
    && (forall k :: 0 <= k < |s.accepted| ==>
          s.accepted[k].socket == k && s.accepted[k].clientID == IdOf(k) && |s.accepted[k].ipAddress| <= MAX_ADDRESS)
    && s.nextClientID == IdOf(|s.accepted|)
    && InOrder(s.clients)
  }

  predicate Presence(s: State)
    requires Sizes(s)
  {
    forall k :: 0 <= k < |s.accepted| ==>
      && (Holds(s.clients, k) <==> s.leftAt[k] == None)
      && s.joinedAt[k] <= End(s, k) <= |s.log|
  }

  /** Where in the log client `c` stopped listening. */
  function End(s: State, c: nat): nat
    requires c < |s.leftAt|
  {
    match s.leftAt[c] case None => |s.log| case Some(x) => x
  }

  predicate Shape(s: State) {
    Sizes(s) && AcceptInStep(s) && Registry(s) && Presence(s)
  }

  lemma RegistryEntry(s: State, i: nat)
    requires Registry(s) && i < |s.clients|
    ensures s.clients[i].socket < |s.accepted| && s.clients[i] == s.accepted[s.clients[i].socket]
  {
    var k :| 0 <= k < |s.accepted| && s.accepted[k] == s.clients[i];
  }

  lemma RegistryNumbered(s: State)
    requires Registry(s)
    ensures Numbered(s.clients)
  {
    forall i | 0 <= i < |s.clients|
      ensures s.clients[i].clientID == IdOf(s.clients[i].socket)
    {
      RegistryEntry(s, i);
    }
  }

  lemma HoldsWithout(cs: seq<ClientHandler>, id: byte, k: nat)
    requires Numbered(cs)
    ensures Holds(Without(cs, id), k) <==> Holds(cs, k) && IdOf(k) != id
  {
    var r := Without(cs, id);
    if Holds(r, k) {
      var i :| 0 <= i < |r| && r[i].socket == k;
      WithoutMember(cs, id, r[i]);
      var j :| 0 <= j < |cs| && cs[j] == r[i];
    }
    if Holds(cs, k) && IdOf(k) != id {
      var j :| 0 <= j < |cs| && cs[j].socket == k;
      WithoutMember(cs, id, cs[j]);
      var i :| 0 <= i < |r| && r[i] == cs[j];
    }
  }

  lemma ShapeAfterAccept(host: HostOrder, s: State, a: Action)
    requires Shape(s) && Enabled(s, a) && a.Accept?
    ensures Shape(Next(host, s, a))
  {
    var t := Next(host, s, a);
    var n := |s.accepted|;
    assert IdOf(n + 1) == (IdOf(n) + 1) % 0x100;
    HoldsAppend(s.clients, t.accepted[n]);
    forall i | 0 <= i < |t.clients|
      ensures t.clients[i] in t.accepted && t.clients[i].socket < |t.accepted|
    {
      if i < |s.clients| {
        RegistryEntry(s, i);
        assert t.accepted[s.clients[i].socket] == t.clients[i];
      } else {
        assert t.accepted[n] == t.clients[i];
      }
    }
    assert !Holds(s.clients, n);
  }

  lemma ShapeAfterErase(host: HostOrder, s: State, a: Action)
    requires Shape(s) && Enabled(s, a) && a.Erase?
    ensures Shape(Next(host, s, a))
  {
    var t := Next(host, s, a);
    var id := s.accepted[a.k].clientID;
    RegistryNumbered(s);
    WithoutInOrder(s.clients, id);
    forall i | 0 <= i < |t.clients|
      ensures t.clients[i] in t.accepted && t.clients[i].socket < |t.accepted|
    {
      WithoutMember(s.clients, id, t.clients[i]);
    }
    forall k | 0 <= k < |s.accepted|
      ensures Holds(t.clients, k) <==> t.leftAt[k] == None
    {
      HoldsWithout(s.clients, id, k);
    }
  }

  lemma ShapeKept(host: HostOrder, s: State, a: Action)
    requires Shape(s) && Enabled(s, a)
    ensures Shape(Next(host, s, a))
  {
    match a
    case Accept(_, _) => ShapeAfterAccept(host, s, a);
    case Erase(_) => ShapeAfterErase(host, s, a);
    case _ =>
  }

  lemma {:induction false} ShapeAlways(host: HostOrder, actions: seq<Action>)
    requires Run(host, actions).Some?
    ensures Shape(Run(host, actions).value)
  {
    if actions == [] {
    } else {
      ShapeAlways(host, actions[..|actions| - 1]);
      ShapeKept(host, Run(host, actions[..|actions| - 1]).value, actions[|actions| - 1]);
    }
  }

  // ---------------------------------------------------------------- history

  /** The accepts of a run, in order. */
  function Accepts(actions: seq<Action>): (r: seq<Action>)
    ensures forall i :: 0 <= i < |r| ==> r[i].Accept?
  {
    if actions == [] then []
    else
      var last := actions[|actions| - 1];
      Accepts(actions[..|actions| - 1]) + if last.Accept? then [last] else []
  }

  /** What arrived from client `k` over a run, in order. */
  function Arrivals(actions: seq<Action>, k: nat): seq<BaseMessage> {
    if actions == [] then []
    else
      var last := actions[|actions| - 1];
      Arrivals(actions[..|actions| - 1], k) + if last.Read? && last.k == k then [last.msg] else []
  }

  lemma {:induction false} NothingArrivedBefore(host: HostOrder, actions: seq<Action>, k: nat)
    requires Run(host, actions).Some? && |Run(host, actions).value.accepted| <= k
    ensures Arrivals(actions, k) == []
  {
    if actions == [] {
    } else {
      NothingArrivedBefore(host, actions[..|actions| - 1], k);
    }
  }

  lemma {:induction false} AcceptsCounted(host: HostOrder, actions: seq<Action>)
    requires Run(host, actions).Some?
    ensures |Accepts(actions)| == |Run(host, actions).value.accepted|
  {
    if actions == [] {
    } else {
      AcceptsCounted(host, actions[..|actions| - 1]);
    }
  }

  /** The server keeps each client's address and port as accepted. */
  lemma {:induction false} AcceptedAsGiven(host: HostOrder, actions: seq<Action>, k: nat)
    requires Run(host, actions).Some? && k < |Run(host, actions).value.accepted|
    ensures var s := Run(host, actions).value;
            && |Accepts(actions)| == |s.accepted|
            && s.accepted[k].ipAddress == Accepts(actions)[k].ipAddress
            && s.accepted[k].port == Accepts(actions)[k].port
  {
    var init := actions[..|actions| - 1];
    AcceptsCounted(host, init);
    if k < |Run(host, init).value.accepted| {
      AcceptedAsGiven(host, init, k);
    }
  }

  lemma ReadGrows(host: HostOrder, s: State, a: Action, k: nat)
    requires Sizes(s) && Enabled(s, a) && k < |Next(host, s, a).accepted|
    ensures var t := Next(host, s, a);
            && k < |t.read|
            && t.read[k] == (if k < |s.read| then s.read[k] else [])
                            + if a.Read? && a.k == k then [a.msg] else []
  {
  }

  /** What it has read from a client is what arrived from it, in order and unaltered. */
  lemma {:induction false} ReadAsArrived(host: HostOrder, actions: seq<Action>, k: nat)
    requires Run(host, actions).Some? && k < |Run(host, actions).value.accepted|
    ensures var s := Run(host, actions).value; k < |s.read| && s.read[k] == Arrivals(actions, k)
  {
    var init, a := actions[..|actions| - 1], actions[|actions| - 1];
    ShapeAlways(host, init);
    ReadGrows(host, Run(host, init).value, a, k);
    if k < |Run(host, init).value.accepted| {
      ReadAsArrived(host, init, k);
    } else {
      NothingArrivedBefore(host, init, k);
    }
  }

  // ---------------------------------------------------------------- progress

  /** No thread is ever stuck: in every reachable state the accept thread can take its next step, and so
      can every client's thread that has been started and not finished, whatever arrives. */
  lemma NothingBlocks(host: HostOrder, actions: seq<Action>)
    requires Run(host, actions).Some?
    ensures var s := Run(host, actions).value;
            && (match s.accepting
                case Waiting => forall ip, port :: |ip| <= 15 ==> Enabled(s, Accept(ip, port))
                case Pushed => Enabled(s, SendId)
                case Greeted => Enabled(s, ListAccepted)
                case Listed => Enabled(s, StartThread))
            && forall k :: 0 <= k < |s.threads| ==>
                 match s.threads[k]
                 case NotStarted => true
                 case Reading => Enabled(s, Erase(k)) && forall m :: Fits(m) ==> Enabled(s, Read(k, m))
                 case Relaying(_) => Enabled(s, Broadcast(k))
                 case Erased => Enabled(s, ListErased(k))
                 case Finished => true
  {
    ShapeAlways(host, actions);
  }
}
