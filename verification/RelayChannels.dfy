/** What a connection carries, over a whole run: one contiguous part of a single order of all
    broadcasts, and from each sender one contiguous part of what the server read from it. */
module RelayChannels {
  import opened Bytes
  import opened Wire
  import opened ServerSide
  import opened Relay

  /** Ways to pick frames out of a channel or out of the log. */
  datatype Pick = AnyRelayed | NotStamped(id: byte) | RelayedFor(socket: nat)

  predicate Picks(p: Pick, e: Sent) {
    match p
    case AnyRelayed => e.origin.FromClient?
    case NotStamped(id) => e.msg.senderID != id
    case RelayedFor(k) => e.origin == FromClient(k)
  }

  function Select(p: Pick, es: seq<Sent>): seq<Sent> {
    if es == [] then []
    else Select(p, es[..|es| - 1]) + if Picks(p, es[|es| - 1]) then [es[|es| - 1]] else []
  }

  lemma SelectPush(p: Pick, es: seq<Sent>, e: Sent)
    ensures Select(p, es + [e]) == Select(p, es) + if Picks(p, e) then [e] else []
  {
    assert (es + [e])[..|es|] == es;
  }

  lemma {:induction false} SelectMember(p: Pick, es: seq<Sent>, e: Sent)
    ensures e in Select(p, es) <==> e in es && Picks(p, e)
  {
    if es == [] {
    } else {
      SelectMember(p, es[..|es| - 1], e);
      assert es == es[..|es| - 1] + [es[|es| - 1]];
    }
  }

  lemma {:induction false} SelectConcat(p: Pick, a: seq<Sent>, b: seq<Sent>)
    ensures Select(p, a + b) == Select(p, a) + Select(p, b)
  {
    if b == [] {
      assert a + b == a;
    } else {
      var init, last := b[..|b| - 1], b[|b| - 1];
      SelectConcat(p, a, init);
      assert a + b == (a + init) + [last];
      SelectPush(p, a + init, last);
      ConcatAssociates(Select(p, a), Select(p, init), if Picks(p, last) then [last] else []);
    }
  }

  /** The frames client `c` can have got from the log while it was registered. */
  function Heard(s: State, c: nat): seq<Sent>
    requires Shape(s) && c < |s.accepted|
  {
    Select(NotStamped(IdOf(c)), s.log[s.joinedAt[c]..End(s, c)])
  }

  /** Relayed frames bear the id of the client they came from. */
  predicate AllStamped(es: seq<Sent>) {
    forall i :: 0 <= i < |es| ==> es[i].origin.FromClient? && es[i].msg.senderID == IdOf(es[i].origin.socket)
  }

  predicate LogStamped(s: State) {
    AllStamped(s.log) && forall i :: 0 <= i < |s.log| ==> s.log[i].origin.socket < |s.accepted|
  }

  predicate ChannelsHear(s: State)
    requires Shape(s)
  {
    forall c :: 0 <= c < |s.accepted| ==> Select(AnyRelayed, s.sent[c]) == Heard(s, c)
  }


  lemma ServerFrameUnheard(p: Pick, es: seq<Sent>, m: BaseMessage)
    requires p == AnyRelayed || p.RelayedFor?
    ensures Select(p, es + [Sent(m, FromServer)]) == Select(p, es)
  {
    SelectPush(p, es, Sent(m, FromServer));
  }

  lemma HeardAfterBroadcast(host: HostOrder, s: State, k: nat, c: nat)
    requires Shape(s) && LogStamped(s) && Enabled(s, Broadcast(k)) && c < |s.accepted|
    requires Shape(Next(host, s, Broadcast(k)))
    requires Select(AnyRelayed, s.sent[c]) == Heard(s, c)
    ensures var t := Next(host, s, Broadcast(k)); Select(AnyRelayed, t.sent[c]) == Heard(t, c)
  {
    var t := Next(host, s, Broadcast(k));
    var id := s.accepted[k].clientID;
    var e := Sent(Stamp(id, s.threads[k].msg), FromClient(k));
    RegistryNumbered(s);
    HoldsWithout(s.clients, id, c);
    if s.leftAt[c] == None {
      assert t.log[t.joinedAt[c]..End(t, c)] == s.log[s.joinedAt[c]..End(s, c)] + [e];
      SelectPush(NotStamped(IdOf(c)), s.log[s.joinedAt[c]..End(s, c)], e);
      SelectPush(AnyRelayed, s.sent[c], e);
    } else {
      assert t.log[t.joinedAt[c]..End(t, c)] == s.log[s.joinedAt[c]..End(s, c)];
    }
  }

  lemma HeardOtherwise(host: HostOrder, s: State, a: Action, c: nat)
    requires Shape(s) && Enabled(s, a) && !a.Broadcast? && c < |s.accepted|
    requires Shape(Next(host, s, a))
    requires Select(AnyRelayed, s.sent[c]) == Heard(s, c)
    ensures var t := Next(host, s, a); Select(AnyRelayed, t.sent[c]) == Heard(t, c)
  {
    var t := Next(host, s, a);
    assert t.log == s.log && End(t, c) == End(s, c) && t.joinedAt[c] == s.joinedAt[c];
    if a.SendId? {
      ServerFrameUnheard(AnyRelayed, s.sent[c], IdMessage(s.accepted[|s.accepted| - 1].clientID));
    } else if a.ListAccepted? || a.ListErased? {
      ServerFrameUnheard(AnyRelayed, s.sent[c], ListMessage(host, s.clients));
    }
  }

  lemma ChannelsHearKept(host: HostOrder, s: State, a: Action)
    requires Shape(s) && LogStamped(s) && ChannelsHear(s) && Enabled(s, a)
    ensures Shape(Next(host, s, a)) && LogStamped(Next(host, s, a)) && ChannelsHear(Next(host, s, a))
  {
    var t := Next(host, s, a);
    ShapeKept(host, s, a);
    forall c | 0 <= c < |t.accepted|
      ensures Select(AnyRelayed, t.sent[c]) == Heard(t, c)
    {
      if c == |s.accepted| {
        assert t.log[t.joinedAt[c]..End(t, c)] == [];
      } else if a.Broadcast? {
        HeardAfterBroadcast(host, s, a.k, c);
      } else {
        HeardOtherwise(host, s, a, c);
      }
    }
  }

  lemma {:induction false} ChannelsHearAlways(host: HostOrder, actions: seq<Action>)
    requires Run(host, actions).Some?
    ensures var s := Run(host, actions).value; Shape(s) && LogStamped(s) && ChannelsHear(s)
  {
    if actions == [] {
    } else {
      ChannelsHearAlways(host, actions[..|actions| - 1]);
      ChannelsHearKept(host, Run(host, actions[..|actions| - 1]).value, actions[|actions| - 1]);
    }
  }

  /** Every connection carries, of the relayed frames, exactly the stretch of the one global
      broadcast order from when its client entered the registry to when it left it (or to now),
      with nothing missing but the frames that bear its own id. */
  lemma OneOrderForAll(host: HostOrder, actions: seq<Action>, c: nat)
    requires Run(host, actions).Some? && c < |Run(host, actions).value.accepted|
    ensures var s := Run(host, actions).value;
            && Shape(s) && c < |s.sent|
            && Select(AnyRelayed, s.sent[c]) == Select(NotStamped(IdOf(c)), s.log[s.joinedAt[c]..End(s, c)])
            && (Holds(s.clients, c) <==> s.leftAt[c] == None)
  {
    ChannelsHearAlways(host, actions);
  }

  // ---------------------------------------------------------------- per sender

  /** What relaying all of `ms` for client `k` looks like. */
  function Stamped(k: nat, ms: seq<BaseMessage>): (r: seq<Sent>)
    ensures |r| == |ms|
  {
    seq(|ms|, i requires 0 <= i < |ms| => Sent(Stamp(IdOf(k), ms[i]), FromClient(k)))
  }

  function BeingRelayed(t: ThreadPc): seq<BaseMessage> {
    if t.Relaying? then [t.msg] else []
  }

  /** The log holds all that was read from `k`, in order, but for a message still to be relayed. */
  predicate Follows(s: State, k: nat)
    requires Sizes(s) && k < |s.accepted|
  {
    Select(RelayedFor(k), s.log) + Stamped(k, BeingRelayed(s.threads[k])) == Stamped(k, s.read[k])
  }

  predicate LogFollowsReads(s: State)
    requires Shape(s)
  {
    forall k :: 0 <= k < |s.accepted| ==> Follows(s, k)
  }

  lemma {:induction false} SelectAbsent(k: nat, es: seq<Sent>)
    requires forall i :: 0 <= i < |es| ==> es[i].origin != FromClient(k)
    ensures Select(RelayedFor(k), es) == []
  {
    if es == [] {
    } else {
      SelectAbsent(k, es[..|es| - 1]);
    }
  }

  lemma StampedPush(k: nat, ms: seq<BaseMessage>, m: BaseMessage)
    ensures Stamped(k, ms + [m]) == Stamped(k, ms) + Stamped(k, [m])
  {
  }

  lemma FollowsAfterBroadcast(host: HostOrder, s: State, from: nat, k: nat)
    requires Shape(s) && Enabled(s, Broadcast(from)) && k < |s.accepted| && Follows(s, k)
    ensures Follows(Next(host, s, Broadcast(from)), k)
  {
    var e := Sent(Stamp(s.accepted[from].clientID, s.threads[from].msg), FromClient(from));
    SelectPush(RelayedFor(k), s.log, e);
    if from == k {
      assert Stamped(k, BeingRelayed(s.threads[k])) == [e];
      assert Stamped(k, []) == [];
      assert Stamped(k, s.read[k]) + [] == Stamped(k, s.read[k]);
    }
  }

  lemma FollowsAfterRead(host: HostOrder, s: State, from: nat, m: BaseMessage, k: nat)
    requires Shape(s) && Enabled(s, Read(from, m)) && k < |s.accepted| && Follows(s, k)
    ensures Follows(Next(host, s, Read(from, m)), k)
  {
    if from == k {
      StampedPush(k, s.read[k], m);
      assert Stamped(k, []) == [];
      assert Select(RelayedFor(k), s.log) + [] == Select(RelayedFor(k), s.log);
    }
  }

  lemma FollowsAfterAccept(host: HostOrder, s: State, a: Action, k: nat)
    requires Shape(s) && LogStamped(s) && a.Accept? && Enabled(s, a) && k <= |s.accepted|
    requires k < |s.accepted| ==> Follows(s, k)
    ensures Sizes(Next(host, s, a)) && Follows(Next(host, s, a), k)
  {
    if k == |s.accepted| {
      SelectAbsent(k, s.log);
    }
  }

  lemma LogFollowsReadsKept(host: HostOrder, s: State, a: Action)
    requires Shape(s) && LogStamped(s) && LogFollowsReads(s) && Enabled(s, a)
    requires Shape(Next(host, s, a))
    ensures LogFollowsReads(Next(host, s, a))
  {
    var t := Next(host, s, a);
    forall k | 0 <= k < |t.accepted|
      ensures Follows(t, k)
    {
      match a
      case Accept(_, _) => FollowsAfterAccept(host, s, a, k);
      case Broadcast(from) => FollowsAfterBroadcast(host, s, from, k);
      case Read(from, m) => FollowsAfterRead(host, s, from, m, k);
      case _ =>
        assert Follows(s, k) && t.log == s.log && t.read[k] == s.read[k];
        assert BeingRelayed(t.threads[k]) == BeingRelayed(s.threads[k]);
    }
  }

  lemma {:induction false} LogFollowsReadsAlways(host: HostOrder, actions: seq<Action>)
    requires Run(host, actions).Some?
    ensures var s := Run(host, actions).value; Shape(s) && LogFollowsReads(s)
  {
    if actions == [] {
    } else {
      var init, last := actions[..|actions| - 1], actions[|actions| - 1];
      LogFollowsReadsAlways(host, init);
      ChannelsHearAlways(host, init);
      ShapeAlways(host, actions);
      LogFollowsReadsKept(host, Run(host, init).value, last);
    }
  }

  lemma {:induction false} SelectTwice(k: nat, p: Pick, es: seq<Sent>)
    requires p == AnyRelayed || (p.NotStamped? && AllStamped(es))
    ensures Select(RelayedFor(k), Select(p, es))
         == if p.NotStamped? && p.id == IdOf(k) then [] else Select(RelayedFor(k), es)
  {
    if es == [] {
    } else {
      var init, last := es[..|es| - 1], es[|es| - 1];
      SelectTwice(k, p, init);
      SelectConcat(RelayedFor(k), Select(p, init), if Picks(p, last) then [last] else []);
      SelectPush(RelayedFor(k), [], last);
      assert [] + [last] == [last];
    }
  }

  /** How many messages of client `s` had been relayed when the log was `n` long. */
  function RelayedBy(st: State, s: nat, n: nat): nat
    requires n <= |st.log|
  {
    |Select(RelayedFor(s), st.log[..n])|
  }

  /** The frames a connection carries from a sender are one contiguous, in-order segment of what
      the server read from that sender: the messages relayed while the receiver was registered,
      with type and payload unchanged and the sender's id stamped on. A client gets nothing from
      itself (or from a client that shares its id). */
  lemma SegmentOfReads(host: HostOrder, actions: seq<Action>, sender: nat, c: nat)
    requires Run(host, actions).Some?
    requires sender < |Run(host, actions).value.accepted| && c < |Run(host, actions).value.accepted|
    ensures var s := Run(host, actions).value;
            && Shape(s)
            && var a, b := RelayedBy(s, sender, s.joinedAt[c]), RelayedBy(s, sender, End(s, c));
               a <= b <= |s.read[sender]|
               && Select(RelayedFor(sender), s.sent[c])
                  == if IdOf(c) == IdOf(sender) then [] else Stamped(sender, s.read[sender][a..b])
  {
    var s := Run(host, actions).value;
    ChannelsHearAlways(host, actions);
    LogFollowsReadsAlways(host, actions);
    var lo, hi := s.joinedAt[c], End(s, c);
    SelectTwice(sender, AnyRelayed, s.sent[c]);
    SelectTwice(sender, NotStamped(IdOf(c)), s.log[lo..hi]);
    LogSplit(s.log, lo, hi, sender);
    assert Follows(s, sender);
    StampedPart(sender, s.read[sender], Select(RelayedFor(sender), s.log),
                Stamped(sender, BeingRelayed(s.threads[sender])),
                RelayedBy(s, sender, lo), RelayedBy(s, sender, hi));
  }

  lemma StampedPart(k: nat, ms: seq<BaseMessage>, all: seq<Sent>, pending: seq<Sent>, a: nat, b: nat)
    requires all + pending == Stamped(k, ms) && a <= b <= |all|
    ensures b <= |ms| && all[a..b] == Stamped(k, ms[a..b])
  {
    assert |all + pending| == |ms|;
    assert forall i :: 0 <= i < |all| ==> all[i] == (all + pending)[i];
  }

  lemma LogSplit(log: seq<Sent>, lo: nat, hi: nat, k: nat)
    requires lo <= hi <= |log|
    ensures var all := Select(RelayedFor(k), log);
            var a, b := |Select(RelayedFor(k), log[..lo])|, |Select(RelayedFor(k), log[..hi])|;
            a <= b <= |all| && Select(RelayedFor(k), log[lo..hi]) == all[a..b]
  {
    var p := RelayedFor(k);
    SelectConcat(p, log[..lo], log[lo..hi]);
    SelectConcat(p, log[..hi], log[hi..]);
    assert log[..lo] + log[lo..hi] == log[..hi];
    assert log[..hi] + log[hi..] == log;
    CutMiddle(Select(p, log[..lo]), Select(p, log[lo..hi]), Select(p, log[hi..]));
  }

  lemma CutMiddle<T>(a: seq<T>, b: seq<T>, c: seq<T>)
    ensures ((a + b) + c)[|a|..|a + b|] == b
  {
  }

  /** The frame is message `m` of client `k`, altered in the sender's id alone. */
  predicate AsRead(e: Sent, m: BaseMessage, k: nat) {
    && e.msg.messageType == m.messageType && e.msg.message == m.message
    && e.msg.senderID == IdOf(k) && e.origin == FromClient(k)
  }

  lemma StampedFields(k: nat, ms: seq<BaseMessage>)
    ensures forall i :: 0 <= i < |ms| ==> AsRead(Stamped(k, ms)[i], ms[i], k)
  {
  }

  lemma SegmentFields(got: seq<Sent>, k: nat, read: seq<BaseMessage>, a: nat, b: nat)
    requires a <= b <= |read| && got == Stamped(k, read[a..b])
    ensures |got| == b - a && forall i :: 0 <= i < |got| ==> AsRead(got[i], read[a + i], k)
  {
    StampedFields(k, read[a..b]);
    assert forall i :: 0 <= i < b - a ==> read[a..b][i] == read[a + i];
  }

  /** The same, frame by frame and field by field: from message `a` on, what the server read from the
      sender while the receiver was registered is what the connection carries from it. */
  lemma FramesAsRead(host: HostOrder, actions: seq<Action>, sender: nat, c: nat) returns (a: nat, b: nat)
    requires Run(host, actions).Some?
    requires sender < |Run(host, actions).value.accepted| && c < |Run(host, actions).value.accepted|
    ensures Shape(Run(host, actions).value)
    ensures var s := Run(host, actions).value;
            a == RelayedBy(s, sender, s.joinedAt[c]) <= b == RelayedBy(s, sender, End(s, c)) <= |s.read[sender]|
    ensures var got, read := Select(RelayedFor(sender), Run(host, actions).value.sent[c]),
                             Run(host, actions).value.read[sender];
            && |got| == (if IdOf(c) == IdOf(sender) then 0 else b - a)
            && forall i :: 0 <= i < |got| ==> AsRead(got[i], read[a + i], sender)
  {
    var s := Run(host, actions).value;
    SegmentOfReads(host, actions, sender, c);
    a, b := RelayedBy(s, sender, s.joinedAt[c]), RelayedBy(s, sender, End(s, c));
    if IdOf(c) != IdOf(sender) {
      SegmentFields(Select(RelayedFor(sender), s.sent[c]), sender, s.read[sender], a, b);
    }
  }

  /** The global order likewise, with what arrived from the client. */
  lemma LogAsArrived(host: HostOrder, actions: seq<Action>, k: nat)
    requires Run(host, actions).Some? && k < |Run(host, actions).value.accepted|
    ensures var s := Run(host, actions).value;
            var relayed, arrived := Select(RelayedFor(k), s.log), Arrivals(actions, k);
            && |relayed| <= |arrived| <= |relayed| + 1
            && forall i :: 0 <= i < |relayed| ==> AsRead(relayed[i], arrived[i], k)
  {
    var s := Run(host, actions).value;
    LogFollowsReadsAlways(host, actions);
    ReadAsArrived(host, actions, k);
    assert Follows(s, k);
    StampedFields(k, s.read[k]);
    FollowsCounts(s, k);
  }

  lemma FollowsCounts(s: State, k: nat)
    requires Sizes(s) && k < |s.accepted| && Follows(s, k)
    ensures var relayed := Select(RelayedFor(k), s.log);
            && |relayed| <= |s.read[k]| <= |relayed| + 1
            && forall i :: 0 <= i < |relayed| ==> relayed[i] == Stamped(k, s.read[k])[i]
  {
    var relayed, pending := Select(RelayedFor(k), s.log), Stamped(k, BeingRelayed(s.threads[k]));
    assert |relayed + pending| == |s.read[k]|;
    assert forall i :: 0 <= i < |relayed| ==> relayed[i] == (relayed + pending)[i];
  }
}
