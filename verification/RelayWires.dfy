/** From the server's bytes to a client's view: every frame on every connection fits its header, so
    a client's receive loop gets back exactly what the relay put there. */
module RelayWires {
  import opened Bytes
  import opened Wire
  import opened ClientList
  import opened ServerSide
  import opened Relay
  import opened RelayIds
  import opened RelayLists
  import opened RelayRefinement
  import opened ClientSide

  /** Bytes of a registry entry at most: id, length, address, port. */
  const ENTRY_SIZE := 4 + MAX_ADDRESS

  /** The registry is short enough for one frame to hold the list of it. */
  predicate RegistryFits(s: State) {
    |s.clients| * ENTRY_SIZE + 2 < U32_LIMIT
  }

  /** Fewer clients were ever accepted than fill a frame with one list. */
  predicate FewAccepts(s: State) {
    |s.accepted| * ENTRY_SIZE + 2 < U32_LIMIT
  }

  /** Every registry of a run fits. */
  predicate RegistriesFit(host: HostOrder, actions: seq<Action>) {
    forall i :: 0 <= i <= |actions| ==>
      match Run(host, actions[..i]) case None => true case Some(s) => RegistryFits(s)
  }

  predicate FramesFit(s: State) {
    && (forall k :: 0 <= k < |s.threads| && s.threads[k].Relaying? ==> Fits(s.threads[k].msg))
    && (forall c :: 0 <= c < |s.sent| ==> AllFit(Messages(s.sent[c])))
  }

  lemma {:induction false} ListSize(host: HostOrder, cs: seq<ClientHandler>)
    requires forall i :: 0 <= i < |cs| ==> |cs[i].ipAddress| <= MAX_ADDRESS
    ensures |EncodeList(host, cs)| <= |cs| * ENTRY_SIZE
  {
    if cs == [] {
    } else {
      ListSize(host, cs[1..]);
    }
  }

  lemma {:induction false} RegistrySize(cs: seq<ClientHandler>, from: nat, to: nat)
    requires InOrder(cs) && from <= to && forall i :: 0 <= i < |cs| ==> from <= cs[i].socket < to
    ensures |cs| <= to - from
    decreases |cs|
  {
    if cs == [] {
    } else {
      RegistrySize(cs[..|cs| - 1], from, cs[|cs| - 1].socket);
    }
  }

  lemma ListFits(host: HostOrder, s: State)
    requires Shape(s) && RegistryFits(s)
    ensures Fits(ListMessage(host, s.clients))
  {
    forall i | 0 <= i < |s.clients|
      ensures |s.clients[i].ipAddress| <= MAX_ADDRESS
    {
      RegistryEntry(s, i);
    }
    ListSize(host, s.clients);
  }

  lemma WindowBounds(s: State)
    requires Shape(s) && RegisteredActive(s) && Window(s)
    ensures RegistryFits(s)
  {
    var n := |s.threads|;
    forall j | 0 <= j < |s.clients|
      ensures n - 0x100 <= s.clients[j].socket < n
    {
      assert Holds(s.clients, s.clients[j].socket);
    }
    RegistrySize(s.clients, if n < 0x100 then 0 else n - 0x100, n);
  }

  lemma WindowFitsNow(host: HostOrder, actions: seq<Action>, s: State)
    requires Run(host, actions) == Some(s) && Window(s)
    ensures RegistryFits(s)
  {
    ShapeAlways(host, actions);
    RegisteredActiveAlways(host, actions);
    WindowBounds(s);
  }

  /** Lists fit while the active clients are among the last 256 accepted. */
  lemma WindowFits(host: HostOrder, actions: seq<Action>)
    requires WindowAlong(host, actions)
    ensures RegistriesFit(host, actions)
  {
    forall i | 0 <= i <= |actions| && Run(host, actions[..i]).Some?
      ensures RegistryFits(Run(host, actions[..i]).value)
    {
      WindowFitsNow(host, actions[..i], Run(host, actions[..i]).value);
    }
  }

  lemma {:induction false} AcceptsGrow(host: HostOrder, actions: seq<Action>, i: nat)
    requires Run(host, actions).Some? && i <= |actions|
    ensures Run(host, actions[..i]).Some?
    ensures |Run(host, actions[..i]).value.accepted| <= |Run(host, actions).value.accepted|
  {
    if i == |actions| {
      assert actions[..i] == actions;
    } else {
      var init := actions[..|actions| - 1];
      AcceptsGrow(host, init, i);
      assert init[..i] == actions[..i];
    }
  }

  lemma RegistryAccepted(host: HostOrder, actions: seq<Action>)
    requires Run(host, actions).Some?
    ensures var s := Run(host, actions).value; |s.clients| <= |s.accepted|
  {
    ShapeAlways(host, actions);
    var s := Run(host, actions).value;
    RegistrySize(s.clients, 0, |s.accepted|);
  }

  /** Lists fit, however the clients come and go, while not too many were ever accepted. */
  lemma FewAcceptsFit(host: HostOrder, actions: seq<Action>)
    requires Run(host, actions).Some? && FewAccepts(Run(host, actions).value)
    ensures RegistriesFit(host, actions)
  {
    forall i | 0 <= i <= |actions|
      ensures match Run(host, actions[..i]) case None => true case Some(s) => RegistryFits(s)
    {
      FewAcceptsFitAt(host, actions, i);
    }
  }

  lemma FewAcceptsFitAt(host: HostOrder, actions: seq<Action>, i: nat)
    requires Run(host, actions).Some? && FewAccepts(Run(host, actions).value) && i <= |actions|
    ensures Run(host, actions[..i]).Some? && RegistryFits(Run(host, actions[..i]).value)
  {
    AcceptsGrow(host, actions, i);
    RegistryAccepted(host, actions[..i]);
    FewerFit(Run(host, actions[..i]).value, Run(host, actions).value);
  }

  lemma FewerFit(s: State, t: State)
    requires |s.clients| <= |s.accepted| <= |t.accepted| && FewAccepts(t)
    ensures RegistryFits(s)
  {
  }

  lemma FitsPush(es: seq<Sent>, e: Sent)
    requires AllFit(Messages(es)) && Fits(e.msg)
    ensures AllFit(Messages(es + [e]))
  {
    assert Messages(es + [e]) == Messages(es) + [e.msg];
  }

  lemma FramesFitKept(host: HostOrder, s: State, a: Action)
    requires Shape(s) && FramesFit(s) && RegistryFits(s) && Enabled(s, a)
    ensures FramesFit(Next(host, s, a))
  {
    var t := Next(host, s, a);
    ListFits(host, s);
    assert Fits(NewFrame(host, s, a).msg);
    forall c | 0 <= c < |t.sent|
      ensures AllFit(Messages(t.sent[c]))
    {
      OneFrameAtMost(host, s, a, c);
      if c < |s.sent| {
        FitsPush(s.sent[c], NewFrame(host, s, a));
      }
    }
  }

  lemma FitsBefore(host: HostOrder, actions: seq<Action>)
    requires actions != [] && RegistriesFit(host, actions)
    ensures var init := actions[..|actions| - 1];
            RegistriesFit(host, init) && (Run(host, init).Some? ==> RegistryFits(Run(host, init).value))
  {
    var init := actions[..|actions| - 1];
    forall i | 0 <= i <= |init|
      ensures match Run(host, init[..i]) case None => true case Some(s) => RegistryFits(s)
    {
      assert init[..i] == actions[..i];
    }
    assert init[..|init|] == init;
  }

  lemma {:induction false} FramesFitAlways(host: HostOrder, actions: seq<Action>)
    requires Run(host, actions).Some? && RegistriesFit(host, actions)
    ensures FramesFit(Run(host, actions).value)
  {
    if actions == [] {
    } else {
      var init, a := actions[..|actions| - 1], actions[|actions| - 1];
      FitsBefore(host, actions);
      FramesFitAlways(host, init);
      ShapeAlways(host, init);
      FramesFitKept(host, Run(host, init).value, a);
    }
  }

  /** Wherever the byte stream of a connection stands, its client has got the whole frames so far,
      unchanged and in order. */
  lemma ReceiveLoopGetsFrames(host: HostOrder, actions: seq<Action>, k: nat, arrived: nat)
    requires Run(host, actions).Some? && RegistriesFit(host, actions)
    requires k < |Run(host, actions).value.sent| && arrived <= |Wires(Run(host, actions).value.sent)[k]|
    ensures var s := Run(host, actions).value;
            var frames := Messages(s.sent[k]);
            && Parse(Wires(s.sent)[k]) == frames
            && Parse(Wires(s.sent)[k][..arrived]) == frames[..WholeFrames(frames, arrived)]
  {
    var frames := Messages(Run(host, actions).value.sent[k]);
    FramesFitAlways(host, actions);
    FramesRoundTrip(frames);
    CutStream(frames, arrived);
  }

  /** Membership from bytes, exactly: in a quiet state a registered client that has read all its
      bytes mirrors the registry if and only if the last list frame on its connection is the
      server's own and the registry has no two entries that contradict each other, or is a client's
      that happens to say the same. */
  lemma WireMembership(host: HostOrder, actions: seq<Action>, k: nat, start: ClientState)
    requires Run(host, actions).Some? && RegistriesFit(host, actions)
    requires var s := Run(host, actions).value; Quiet(s) && k < |s.sent| && Holds(s.clients, k)
    ensures var s := Run(host, actions).value;
            var last := LastSent(s.sent[k], CLIENT_LIST_MESSAGE);
            && last.Some?
            && (Mirrors(TakeAll(host, start, Parse(Wires(s.sent)[k])).members, s.clients)
                <==> if last.value.origin == FromServer then Consistent(s.clients)
                     else Mirrors(Directory(ParseList(host, last.value.msg.message)), s.clients))
  {
    ReceiveLoopGetsFrames(host, actions, k, 0);
    MirrorsExactly(host, actions, k, start);
  }

  /** So without forged lists, and with the active clients in the last 256 accepted, every registered
      client that has read all its bytes mirrors the registry, however long the run. */
  lemma UnforgedWireMembership(host: HostOrder, actions: seq<Action>, k: nat, start: ClientState)
    requires Run(host, actions).Some? && WindowAlong(host, actions)
    requires var s := Run(host, actions).value;
             && NoneRead(s, CLIENT_LIST_MESSAGE) && Quiet(s)
             && k < |s.sent| && Holds(s.clients, k)
    ensures var s := Run(host, actions).value;
            Mirrors(TakeAll(host, start, Parse(Wires(s.sent)[k])).members, s.clients)
  {
    WindowFits(host, actions);
    ReceiveLoopGetsFrames(host, actions, k, 0);
    assert actions[..|actions|] == actions;
    IdsDistinct(host, actions);
    MembershipMirrorsRegistry(host, actions, k, start);
  }
}
