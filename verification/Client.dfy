/** The network client: queues by message type, last-wins snapshots, and the membership map. */
module ClientSide {
  import opened Bytes
  import opened Wire
  import opened ClientList

  /** `announced` records the ids handed to the membership listeners, one entry per update. */
  datatype ClientState = ClientState(
    isConnected: bool, clientID: byte, members: map<byte, ClientInfo>,
    texts: seq<BaseMessage>, events: seq<BaseMessage>, snapshots: map<byte, BaseMessage>,
    announced: seq<seq<byte>>)

  predicate Ascending(s: seq<byte>) {
    forall i, j :: 0 <= i < j < |s| ==> s[i] < s[j]
  }

  ghost function Largest(ids: set<byte>): (x: byte)
    requires ids != {}
    ensures x in ids && forall y :: y in ids ==> y <= x
  {
    var x :| x in ids;
    var rest := ids - {x};
    assert forall z :: z in ids ==> z == x || z in rest;
    if rest == {} then x else var y := Largest(rest); if y < x then x else y
  }

  ghost function SortedSeq(ids: set<byte>): seq<byte> {
    if ids == {} then [] else var x := Largest(ids); SortedSeq(ids - {x}) + [x]
  }

  /** The keys of a map in the order `std::map` iterates over them. */
  ghost function SortedIds<T>(m: map<byte, T>): seq<byte> {
    SortedSeq(m.Keys)
  }

  lemma {:induction false} SortedSeqMembers(ids: set<byte>)
    ensures |SortedSeq(ids)| == |ids| && forall id :: id in SortedSeq(ids) <==> id in ids
  {
    if ids == {} {
    } else {
      SortedSeqMembers(ids - {Largest(ids)});
    }
  }

  lemma {:induction false} SortedSeqAscends(ids: set<byte>)
    ensures Ascending(SortedSeq(ids))
  {
    if ids == {} {
    } else {
      var rest := ids - {Largest(ids)};
      SortedSeqAscends(rest);
      SortedSeqMembers(rest);
      forall i | 0 <= i < |SortedSeq(rest)|
        ensures SortedSeq(rest)[i] < Largest(ids)
      {
        assert SortedSeq(rest)[i] in SortedSeq(rest);
      }
    }
  }

  lemma SortedSeqSorted(ids: set<byte>)
    ensures Ascending(SortedSeq(ids)) && |SortedSeq(ids)| == |ids|
    ensures forall id :: id in SortedSeq(ids) <==> id in ids
  {
    SortedSeqMembers(ids);
    SortedSeqAscends(ids);
  }

  lemma SortedSeqPush(ids: set<byte>, x: byte)
    requires forall y :: y in ids ==> y < x
    ensures SortedSeq(ids + {x}) == SortedSeq(ids) + [x]
  {
    assert Largest(ids + {x}) == x;
    assert ids + {x} - {x} == ids;
  }

  ghost function UpdateMembers(host: HostOrder, s: ClientState, data: seq<byte>): ClientState {
    var members := Directory(ParseList(host, data));
    s.(members := members, announced := s.announced + [SortedIds(members)])
  }

  function Sort(s: ClientState, m: BaseMessage): ClientState {
    if m.messageType == TEXT_MESSAGE then s.(texts := s.texts + [m])
    else if m.messageType == EVENT_MESSAGE then s.(events := s.events + [m])
    else if m.messageType == SNAPSHOT_MESSAGE then s.(snapshots := s.snapshots[m.senderID := m])
    else if m.messageType == CLIENT_ID_MESSAGE then s.(clientID := m.senderID)
    else s
  }

  ghost function Take(host: HostOrder, s: ClientState, m: BaseMessage): ClientState {
    if m.messageType == CLIENT_LIST_MESSAGE then UpdateMembers(host, s, m.message) else Sort(s, m)
  }

  ghost function TakeAll(host: HostOrder, s: ClientState, ms: seq<BaseMessage>): ClientState {
    if ms == [] then s else Take(host, TakeAll(host, s, ms[..|ms| - 1]), ms[|ms| - 1])
  }

  ghost function ServerDown(host: HostOrder, s: ClientState): ClientState {
    UpdateMembers(host, s.(isConnected := false), [])
  }

  /** What the receive thread has done when it ends, if no header is cut: a stream that ends where a header was due
      means the server is down and empties the membership; one that ends inside a body does not. */
  ghost function ReceiveAll(host: HostOrder, s: ClientState, stream: seq<byte>): ClientState {
    var t := TakeAll(host, s, Parse(stream));
    if EndsBetweenFrames(stream) then ServerDown(host, t) else t.(isConnected := false)
  }

  // ---------------------------------------------------------------- the order of what was taken

  function OfType(ms: seq<BaseMessage>, t: byte): seq<BaseMessage> {
    if ms == [] then []
    else OfType(ms[..|ms| - 1], t) + if ms[|ms| - 1].messageType == t then [ms[|ms| - 1]] else []
  }

  function LastOf(ms: seq<BaseMessage>, t: byte): Option<BaseMessage> {
    if ms == [] then None
    else if ms[|ms| - 1].messageType == t then Some(ms[|ms| - 1])
    else LastOf(ms[..|ms| - 1], t)
  }

  /** The latest snapshot of one sender. */
  function LastSnapshot(ms: seq<BaseMessage>, id: byte): Option<BaseMessage> {
    if ms == [] then None
    else
      var last := ms[|ms| - 1];
      if last.messageType == SNAPSHOT_MESSAGE && last.senderID == id then Some(last)
      else LastSnapshot(ms[..|ms| - 1], id)
  }

  lemma {:induction false} LastOfIsLast(ms: seq<BaseMessage>, t: byte, i: nat)
    requires i < |ms| && ms[i].messageType == t && forall j :: i < j < |ms| ==> ms[j].messageType != t
    ensures LastOf(ms, t) == Some(ms[i])
  {
    if i < |ms| - 1 {
      LastOfIsLast(ms[..|ms| - 1], t, i);
    }
  }

  lemma {:induction false} LastSnapshotIsLast(ms: seq<BaseMessage>, id: byte, i: nat)
    requires i < |ms| && ms[i].messageType == SNAPSHOT_MESSAGE && ms[i].senderID == id
    requires forall j :: i < j < |ms| ==> ms[j].messageType != SNAPSHOT_MESSAGE || ms[j].senderID != id
    ensures LastSnapshot(ms, id) == Some(ms[i])
  {
    if i < |ms| - 1 {
      LastSnapshotIsLast(ms[..|ms| - 1], id, i);
    }
  }

  /** Where the messages of a type stand. */
  function Positions(ms: seq<BaseMessage>, t: byte): seq<nat> {
    if ms == [] then []
    else
      var i := |ms| - 1;
      if ms[i].messageType == t then Positions(ms[..i], t) + [i] else Positions(ms[..i], t)
  }

  lemma {:induction false} PositionsExactly(ms: seq<BaseMessage>, t: byte)
    ensures forall i: nat :: i in Positions(ms, t) <==> i < |ms| && ms[i].messageType == t
    ensures forall k, l :: 0 <= k < l < |Positions(ms, t)| ==> Positions(ms, t)[k] < Positions(ms, t)[l]
  {
    if ms == [] {
    } else {
      var init := ms[..|ms| - 1];
      PositionsExactly(init, t);
      forall k | 0 <= k < |Positions(init, t)|
        ensures Positions(init, t)[k] < |init|
      {
        assert Positions(init, t)[k] in Positions(init, t);
      }
    }
  }

  lemma {:induction false} OfTypeCounted(ms: seq<BaseMessage>, t: byte)
    ensures |OfType(ms, t)| == |Positions(ms, t)|
  {
    if ms == [] {
    } else {
      OfTypeCounted(ms[..|ms| - 1], t);
    }
  }

  /** The messages of a type are all of them, each once, in order. */
  lemma {:induction false} OfTypeExactly(ms: seq<BaseMessage>, t: byte, k: nat)
    requires k < |Positions(ms, t)|
    ensures |OfType(ms, t)| == |Positions(ms, t)| && Positions(ms, t)[k] < |ms|
    ensures OfType(ms, t)[k] == ms[Positions(ms, t)[k]]
  {
    var init := ms[..|ms| - 1];
    OfTypeCounted(ms, t);
    OfTypeCounted(init, t);
    if k < |Positions(init, t)| {
      OfTypeExactly(init, t, k);
    }
  }

  /** Texts and events keep their order and lose nothing. */
  lemma {:induction false} TakeAllQueues(host: HostOrder, s: ClientState, ms: seq<BaseMessage>)
    ensures var t := TakeAll(host, s, ms);
            && t.texts == s.texts + OfType(ms, TEXT_MESSAGE)
            && t.events == s.events + OfType(ms, EVENT_MESSAGE)
  {
    if ms == [] {
    } else {
      var init, last := ms[..|ms| - 1], ms[|ms| - 1];
      TakeAllQueues(host, s, init);
      ConcatAssociates(s.texts, OfType(init, TEXT_MESSAGE), if last.messageType == TEXT_MESSAGE then [last] else []);
      ConcatAssociates(s.events, OfType(init, EVENT_MESSAGE), if last.messageType == EVENT_MESSAGE then [last] else []);
    }
  }

  /** The own id and the membership are those of the last message that set them. */
  lemma {:induction false} TakeAllLast(host: HostOrder, s: ClientState, ms: seq<BaseMessage>)
    ensures var t := TakeAll(host, s, ms);
            && t.isConnected == s.isConnected
            && t.clientID == (match LastOf(ms, CLIENT_ID_MESSAGE) case None => s.clientID case Some(m) => m.senderID)
            && t.members == (match LastOf(ms, CLIENT_LIST_MESSAGE)
                             case None => s.members
                             case Some(m) => Directory(ParseList(host, m.message)))
  {
    if ms == [] {
    } else {
      TakeAllLast(host, s, ms[..|ms| - 1]);
    }
  }

  /** What the membership listeners are handed: all member ids, ascending. */
  predicate Announces(ids: seq<byte>, members: map<byte, ClientInfo>) {
    Ascending(ids) && forall id: byte :: id in ids <==> id in members
  }

  lemma InitOfAscending(ids: seq<byte>, id: byte)
    requires ids != [] && Ascending(ids)
    ensures id in ids[..|ids| - 1] <==> id in ids && id != ids[|ids| - 1]
  {
    if id in ids && id != ids[|ids| - 1] {
      var i :| 0 <= i < |ids| && ids[i] == id;
      assert ids[..|ids| - 1][i] == id;
    }
  }

  predicate SameIds(a: seq<byte>, b: seq<byte>) {
    forall id: byte :: id in a <==> id in b
  }

  lemma SomeId(b: seq<byte>)
    ensures b == [] || exists id: byte :: id in b
  {
    if b != [] {
      assert b[0] in b;
    }
  }

  lemma SameLast(a: seq<byte>, b: seq<byte>)
    requires Ascending(a) && Ascending(b) && SameIds(a, b) && a != []
    ensures b != [] && a[|a| - 1] == b[|b| - 1]
  {
    assert a[|a| - 1] in a;
    assert b[|b| - 1] in b;
    var i :| 0 <= i < |b| && b[i] == a[|a| - 1];
    var j :| 0 <= j < |a| && a[j] == b[|b| - 1];
  }

  lemma {:induction false} AscendingUnique(a: seq<byte>, b: seq<byte>)
    requires Ascending(a) && Ascending(b) && SameIds(a, b)
    ensures a == b
    decreases |a|
  {
    SomeId(b);
    if a == [] {
    } else {
      SameLast(a, b);
      var initA, initB := a[..|a| - 1], b[..|b| - 1];
      forall id: byte
        ensures id in initA <==> id in initB
      {
        InitOfAscending(a, id);
        InitOfAscending(b, id);
      }
      AscendingUnique(initA, initB);
      assert a == initA + [a[|a| - 1]] && b == initB + [b[|b| - 1]];
    }
  }

  /** Only one list of ids announces a membership. */
  lemma AnnouncementUnique(ids: seq<byte>, keys: set<byte>)
    requires Ascending(ids) && forall id: byte :: id in ids <==> id in keys
    ensures ids == SortedSeq(keys)
  {
    SortedSeqSorted(keys);
    AscendingUnique(ids, SortedSeq(keys));
  }

  /** An update is announced once, with the ids of the new membership. */
  lemma UpdateAnnounces(host: HostOrder, s: ClientState, data: seq<byte>)
    ensures var t := UpdateMembers(host, s, data);
            && |t.announced| == |s.announced| + 1 && t.announced[..|s.announced|] == s.announced
            && Announces(t.announced[|s.announced|], t.members)
  {
    SortedSeqSorted(UpdateMembers(host, s, data).members.Keys);
  }

  lemma {:induction false} AnnouncementsCounted(host: HostOrder, s: ClientState, ms: seq<BaseMessage>)
    ensures var t, n := TakeAll(host, s, ms), |s.announced|;
            |t.announced| == n + |OfType(ms, CLIENT_LIST_MESSAGE)| && t.announced[..n] == s.announced
  {
    if ms == [] {
    } else {
      AnnouncementsCounted(host, s, ms[..|ms| - 1]);
    }
  }

  /** Every list that arrives is announced once, in order of arrival, with exactly the ids it holds. */
  lemma {:induction false} TakeAllAnnounces(host: HostOrder, s: ClientState, ms: seq<BaseMessage>, j: nat)
    requires j < |OfType(ms, CLIENT_LIST_MESSAGE)|
    ensures var t, lists, n := TakeAll(host, s, ms), OfType(ms, CLIENT_LIST_MESSAGE), |s.announced|;
            && |t.announced| == n + |lists| && t.announced[..n] == s.announced
            && Announces(t.announced[n + j], Directory(ParseList(host, lists[j].message)))
  {
    var init, last := ms[..|ms| - 1], ms[|ms| - 1];
    AnnouncementsCounted(host, s, ms);
    AnnouncementsCounted(host, s, init);
    if last.messageType == CLIENT_LIST_MESSAGE {
      UpdateAnnounces(host, TakeAll(host, s, init), last.message);
    }
    if j < |OfType(init, CLIENT_LIST_MESSAGE)| {
      TakeAllAnnounces(host, s, init, j);
    }
  }

  /** So the last announcement is of the membership as it is. */
  lemma {:induction false} LastAnnouncement(host: HostOrder, s: ClientState, ms: seq<BaseMessage>)
    requires LastOf(ms, CLIENT_LIST_MESSAGE).Some?
    ensures var t := TakeAll(host, s, ms); t.announced != [] && Announces(t.announced[|t.announced| - 1], t.members)
  {
    var init, last := ms[..|ms| - 1], ms[|ms| - 1];
    if last.messageType == CLIENT_LIST_MESSAGE {
      UpdateAnnounces(host, TakeAll(host, s, init), last.message);
    } else {
      LastAnnouncement(host, s, init);
    }
  }

  /** Of a sender's snapshots only the last is kept, and it displaces no other sender's. */
  lemma {:induction false} TakeAllSnapshots(host: HostOrder, s: ClientState, ms: seq<BaseMessage>, id: byte)
    ensures var t := TakeAll(host, s, ms);
            match LastSnapshot(ms, id)
            case None => (id in t.snapshots <==> id in s.snapshots)
                         && (id in s.snapshots ==> t.snapshots[id] == s.snapshots[id])
            case Some(m) => id in t.snapshots && t.snapshots[id] == m
  {
    if ms == [] {
    } else {
      TakeAllSnapshots(host, s, ms[..|ms| - 1], id);
    }
  }

  /** Over the wire, with any message sizes that fit a header and wherever the stream is cut, short
      of inside a header: the client ends as if it had taken the whole messages one by one, and
      loses its membership exactly when the cut is between two frames. */
  lemma ReceiveCutStream(host: HostOrder, s: ClientState, ms: seq<BaseMessage>, k: nat)
    requires AllFit(ms) && k <= |Frames(ms)| && HeadersWhole(Frames(ms)[..k])
    ensures var j := WholeFrames(ms, k);
            var t := ReceiveAll(host, s, Frames(ms)[..k]);
            && t.texts == s.texts + OfType(ms[..j], TEXT_MESSAGE)
            && t.events == s.events + OfType(ms[..j], EVENT_MESSAGE)
            && t.snapshots == TakeAll(host, s, ms[..j]).snapshots
            && !t.isConnected && t.clientID == TakeAll(host, s, ms[..j]).clientID
            && t.announced == TakeAll(host, s, ms[..j]).announced + (if k == |Frames(ms[..j])| then [[]] else [])
            && t.members == if k == |Frames(ms[..j])| then map[] else TakeAll(host, s, ms[..j]).members
  {
    CutStream(ms, k);
    TakeAllQueues(host, s, ms[..WholeFrames(ms, k)]);
    var taken := TakeAll(host, s, ms[..WholeFrames(ms, k)]);
    assert taken.announced + [] == taken.announced;
  }

  /** The map-filling loop of `updateClientList`. */
  method CollectInfos(clientInfos: seq<ClientInfo>) returns (members: map<byte, ClientInfo>)
    ensures members == Directory(clientInfos)
  {
    members := map[];
    for i := 0 to |clientInfos|
      invariant members == Directory(clientInfos[..i])
    {
      assert clientInfos[..i + 1][..i] == clientInfos[..i];
      members := members[clientInfos[i].clientID := clientInfos[i]];
    }
    assert clientInfos[..|clientInfos|] == clientInfos;
  }

  /** The loop over the ordered map that collects the ids for the listeners. */
  method CollectIds<T>(members: map<byte, T>) returns (clientIDs: seq<byte>)
    ensures clientIDs == SortedIds(members)
  {
    clientIDs := [];
    ghost var seen: set<byte> := {};
    for id := 0 to 0x100
      invariant seen == set x: byte | x in members && x < id
      invariant clientIDs == SortedSeq(seen)
    {
      if id in members {
        SortedSeqPush(seen, id);
        clientIDs := clientIDs + [id];
        seen := seen + {id};
      }
    }
    assert seen == members.Keys;
  }

  class Client {
    const host: HostOrder
    var isConnected: bool
    var clientID: byte
    var connectedClientsInfo: map<byte, ClientInfo>
    var textMessages: seq<BaseMessage>
    var eventMessages: seq<BaseMessage>
    var snapshotMessages: map<byte, BaseMessage>
    /** Calls of the membership listeners. */
    var announced: seq<seq<byte>>

    function View(): ClientState
      reads this
    {
      ClientState(isConnected, clientID, connectedClientsInfo, textMessages, eventMessages, snapshotMessages, announced)
    }

    /** A client whose connection has just been made. */
    constructor (host: HostOrder)
      ensures this.host == host && View() == ClientState(true, 0xFF, map[], [], [], map[], [])
    {
      this.host := host;
      isConnected, clientID, connectedClientsInfo := true, 0xFF, map[];
      textMessages, eventMessages, snapshotMessages, announced := [], [], map[], [];
    }

    method SortMessageByType(msg: BaseMessage)
      modifies this
      ensures View() == Sort(old(View()), msg)
    {
      if msg.messageType == TEXT_MESSAGE {
        textMessages := textMessages + [msg];
      } else if msg.messageType == EVENT_MESSAGE {
        eventMessages := eventMessages + [msg];
      } else if msg.messageType == SNAPSHOT_MESSAGE {
        snapshotMessages := snapshotMessages[msg.senderID := msg];
      } else if msg.messageType == CLIENT_ID_MESSAGE {
        clientID := msg.senderID;
      }
    }

    method UpdateClientList(data: seq<byte>)
      modifies this
      ensures View() == UpdateMembers(host, old(View()), data)
    {
      var clientInfos := ReadClientList(host, data);
      connectedClientsInfo := CollectInfos(clientInfos);
      var clientIDs := CollectIds(connectedClientsInfo);
      announced := announced + [clientIDs];
    }

    method NotifyServerDown()
      modifies this
      ensures View() == ServerDown(host, old(View()))
    {
      isConnected := false;
      UpdateClientList([]);
    }

    /** The receive thread, from the connection to its end, for every way the bytes arrive. */
    method ReceiveMessages(sock: Socket)
      requires isConnected && HeadersWhole(sock.incoming)
      modifies this, sock
      ensures View() == ReceiveAll(host, old(View()), old(sock.incoming))
    {
      ghost var taken: seq<BaseMessage> := [];
      while isConnected
        invariant HeadersWhole(sock.incoming)
        invariant isConnected ==>
          && taken + Parse(sock.incoming) == Parse(old(sock.incoming))
          && EndsBetweenFrames(sock.incoming) == EndsBetweenFrames(old(sock.incoming))
          && View() == TakeAll(host, old(View()), taken)
        invariant isConnected
        decreases |sock.incoming|
      {
        ParseStep(sock.incoming);
        var d := sock.ReadFrame(host);
        if !d.Delivered? {
          assert taken == Parse(old(sock.incoming));
          if d == Closed {
            NotifyServerDown();
          }
          break;
        }
        var msg := DeserializeMessage(d.buffer);
        if msg.Some? {
          TakeAllPush(host, old(View()), taken, msg.value);
          ConcatAssociates(taken, [msg.value], Parse(sock.incoming));
          taken := taken + [msg.value];
          if msg.value.messageType == CLIENT_LIST_MESSAGE {
            UpdateClientList(msg.value.message);
          } else {
            SortMessageByType(msg.value);
          }
          TakeAllLast(host, old(View()), taken);
        }
      }
      isConnected := false;
    }

    method SendMessage(sock: Socket, msg: BaseMessage)
      modifies sock
      ensures sock.outgoing == old(sock.outgoing) + Frame(msg) && sock.incoming == old(sock.incoming)
    {
      sock.SendFrame(host, msg);
    }

    method FrontTextMessage() returns (m: BaseMessage)
      ensures m == if textMessages != [] then textMessages[0] else BaseMessage(0xFF, 0xFF, [])
    {
      m := if |textMessages| > 0 then textMessages[0] else BaseMessage(0xFF, 0xFF, []);
    }

    method FrontEventMessage() returns (m: BaseMessage)
      ensures m == if eventMessages != [] then eventMessages[0] else BaseMessage(0xFF, 0xFF, [])
    {
      m := if |eventMessages| > 0 then eventMessages[0] else BaseMessage(0xFF, 0xFF, []);
    }

    method PopFrontTextMessage()
      requires textMessages != []
      modifies this
      ensures View() == old(View()).(texts := old(textMessages)[1..])
    {
      textMessages := textMessages[1..];
    }

    method PopFrontEventMessage()
      requires eventMessages != []
      modifies this
      ensures View() == old(View()).(events := old(eventMessages)[1..])
    {
      eventMessages := eventMessages[1..];
    }

    method ClearSnapMessage()
      modifies this
      ensures View() == old(View()).(snapshots := map[])
    {
      snapshotMessages := map[];
    }
  }

  lemma TakeAllPush(host: HostOrder, s: ClientState, ms: seq<BaseMessage>, m: BaseMessage)
    ensures TakeAll(host, s, ms + [m]) == Take(host, TakeAll(host, s, ms), m)
  {
    assert (ms + [m])[..|ms|] == ms;
  }
}
