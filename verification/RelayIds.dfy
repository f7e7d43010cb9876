/** Eight-bit ids over a whole run: who has which id, when ids are distinct, and what erasing
    or excluding by id then means. */
module RelayIds {
  import opened Bytes
  import opened ClientList
  import opened ServerSide
  import opened Relay

  /** The client's thread has not left its loop. */
  predicate Active(s: State, k: nat)
    requires k < |s.threads|
  {
    s.threads[k] == NotStarted || s.threads[k] == Reading || s.threads[k].Relaying?
  }

  /** Every active client is among the last 256 accepted. */
  predicate Window(s: State) {
    forall k :: 0 <= k < |s.threads| && Active(s, k) ==> |s.threads| - k <= 0x100
  }

  predicate RegisteredActive(s: State) {
    forall k :: 0 <= k < |s.threads| && Holds(s.clients, k) ==> Active(s, k)
  }

  predicate ActiveRegistered(s: State) {
    forall k :: 0 <= k < |s.threads| && Active(s, k) ==> Holds(s.clients, k)
  }

  /** The window condition holds all along a run. */
  predicate WindowAlong(host: HostOrder, actions: seq<Action>) {
    forall i :: 0 <= i <= |actions| ==>
      match Run(host, actions[..i]) case None => true case Some(s) => Window(s)
  }

  lemma RegisteredActiveKept(host: HostOrder, s: State, a: Action)
    requires Shape(s) && RegisteredActive(s) && Enabled(s, a)
    ensures RegisteredActive(Next(host, s, a))
  {
    var t := Next(host, s, a);
    ShapeKept(host, s, a);
    RegistryNumbered(s);
    forall k | 0 <= k < |t.threads| && Holds(t.clients, k)
      ensures Active(t, k)
    {
      if a.Accept? {
        HoldsAppend(s.clients, t.accepted[|s.accepted|]);
      } else if a.Erase? {
        HoldsWithout(s.clients, s.accepted[a.k].clientID, k);
      }
    }
  }

  lemma {:induction false} RegisteredActiveAlways(host: HostOrder, actions: seq<Action>)
    requires Run(host, actions).Some?
    ensures RegisteredActive(Run(host, actions).value)
  {
    if actions == [] {
    } else {
      var init, last := actions[..|actions| - 1], actions[|actions| - 1];
      ShapeAlways(host, init);
      RegisteredActiveAlways(host, init);
      RegisteredActiveKept(host, Run(host, init).value, last);
    }
  }

  lemma SameIdFarApart(i: nat, j: nat)
    requires i < j && IdOf(i) == IdOf(j)
    ensures j - i >= 0x100
  {
  }

  /** The registry ids are pairwise distinct whenever the active clients fit the id space. */
  lemma IdsDistinct(host: HostOrder, actions: seq<Action>)
    requires Run(host, actions).Some? && Window(Run(host, actions).value)
    ensures DistinctIds(Run(host, actions).value.clients)
  {
    var s := Run(host, actions).value;
    ShapeAlways(host, actions);
    RegisteredActiveAlways(host, actions);
    RegistryNumbered(s);
    forall i, j | 0 <= i < j < |s.clients|
      ensures s.clients[i].clientID != s.clients[j].clientID
    {
      if s.clients[i].clientID == s.clients[j].clientID {
        assert Holds(s.clients, s.clients[i].socket) && Holds(s.clients, s.clients[j].socket);
        SameIdFarApart(s.clients[i].socket, s.clients[j].socket);
      }
    }
  }

  /** The k-th accepted client has id (1 + k) mod 256, also after the counter wraps, and every
      registry entry is the handler that was accepted. */
  lemma IdsInOrderOfAcceptance(host: HostOrder, actions: seq<Action>, k: nat)
    requires Run(host, actions).Some? && k < |Run(host, actions).value.accepted|
    ensures var s := Run(host, actions).value;
            && s.accepted[k].socket == k && s.accepted[k].clientID == (1 + k) % 0x100
            && (forall i :: 0 <= i < |s.clients| && s.clients[i].socket == k ==> s.clients[i] == s.accepted[k])
  {
    var s := Run(host, actions).value;
    ShapeAlways(host, actions);
    forall i | 0 <= i < |s.clients| && s.clients[i].socket == k
      ensures s.clients[i] == s.accepted[k]
    {
      RegistryEntry(s, i);
    }
  }

  /** Excluding client k's id leaves out k alone if and only if no other registered client has
      that id. Erasing k and broadcasting for k both use this list. */
  lemma ExcludesExactlySelf(host: HostOrder, actions: seq<Action>, k: nat)
    requires Run(host, actions).Some?
    ensures var cs := Run(host, actions).value.clients;
            (forall c: nat :: Holds(Without(cs, IdOf(k)), c) <==> Holds(cs, c) && c != k)
            <==> (forall c: nat :: Holds(cs, c) && c != k ==> IdOf(c) != IdOf(k))
  {
    var s := Run(host, actions).value;
    ShapeAlways(host, actions);
    RegistryNumbered(s);
    forall c: nat
      ensures Holds(Without(s.clients, IdOf(k)), c) <==> Holds(s.clients, c) && IdOf(c) != IdOf(k)
    {
      HoldsWithout(s.clients, IdOf(k), c);
    }
  }

  lemma ActiveRegisteredKept(host: HostOrder, s: State, a: Action)
    requires Shape(s) && RegisteredActive(s) && ActiveRegistered(s) && Window(s) && Enabled(s, a)
    ensures ActiveRegistered(Next(host, s, a))
  {
    var t := Next(host, s, a);
    RegistryNumbered(s);
    forall k | 0 <= k < |t.threads| && Active(t, k)
      ensures Holds(t.clients, k)
    {
      if a.Accept? {
        HoldsAppend(s.clients, t.accepted[|s.accepted|]);
        assert k < |s.threads| ==> Active(s, k);
      } else {
        assert Active(s, k);
        if a.Erase? {
          HoldsWithout(s.clients, s.accepted[a.k].clientID, k);
          assert Active(s, a.k);
          if k < a.k && IdOf(k) == IdOf(a.k) {
            SameIdFarApart(k, a.k);
          } else if a.k < k && IdOf(k) == IdOf(a.k) {
            SameIdFarApart(a.k, k);
          }
        }
      }
    }
  }

  /** While the window condition held all along, the registry is exactly the set of clients
      whose threads are in their loops: no disconnect ever took another client with it. */
  lemma {:induction false} RegistryIsActiveClients(host: HostOrder, actions: seq<Action>)
    requires Run(host, actions).Some? && WindowAlong(host, actions)
    ensures var s := Run(host, actions).value;
            |s.threads| == |s.accepted|
            && forall k :: 0 <= k < |s.threads| ==> (Holds(s.clients, k) <==> Active(s, k))
  {
    if actions == [] {
    } else {
      var init, last := actions[..|actions| - 1], actions[|actions| - 1];
      forall i | 0 <= i <= |init|
        ensures match Run(host, init[..i]) case None => true case Some(s) => Window(s)
      {
        assert init[..i] == actions[..i];
      }
      RegistryIsActiveClients(host, init);
      ShapeAlways(host, init);
      RegisteredActiveAlways(host, init);
      assert init[..|init|] == init;
      ActiveRegisteredKept(host, Run(host, init).value, last);
    }
    ShapeAlways(host, actions);
    RegisteredActiveAlways(host, actions);
  }

  /** So, while the active clients fit the id space, a disconnect of a registered client removes
      exactly that client and its broadcasts reach exactly the other registered clients. */
  lemma DisconnectAndBroadcastAreExact(host: HostOrder, actions: seq<Action>, k: nat)
    requires Run(host, actions).Some?
    requires Window(Run(host, actions).value) && Holds(Run(host, actions).value.clients, k)
    ensures var cs := Run(host, actions).value.clients;
            exists i :: 0 <= i < |cs| && cs[i].socket == k && Without(cs, IdOf(k)) == cs[..i] + cs[i + 1..]
    ensures var cs := Run(host, actions).value.clients;
            forall c: nat :: Holds(Without(cs, IdOf(k)), c) <==> Holds(cs, c) && c != k
  {
    var s := Run(host, actions).value;
    ShapeAlways(host, actions);
    RegistryNumbered(s);
    IdsDistinct(host, actions);
    var i :| 0 <= i < |s.clients| && s.clients[i].socket == k;
    RemovesOne(s.clients, i);
    forall c: nat | Holds(s.clients, c) && c != k
      ensures IdOf(c) != IdOf(k)
    {
      var j :| 0 <= j < |s.clients| && s.clients[j].socket == c;
      assert s.clients[j].clientID != s.clients[i].clientID;
    }
    ExcludesExactlySelf(host, actions, k);
  }
}
