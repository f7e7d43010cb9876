/** The game client: it drains the network client's queues into the player slots, and writes what
    the main player has to say. */
module GameClient {
  import opened Bytes
  import opened Wire
  import opened ClientSide
  import opened GameData

  // ---------------------------------------------------------------- draining events

  datatype EventLoop<+M> = EventLoop(state: GameState<M>, queue: seq<BaseMessage>, thrown: bool)

  predicate Ended<M>(l: EventLoop<M>) {
    l.queue == [] || l.thrown
  }

  /** One turn of the event loop of `readMessage`: an event without payload is not popped. */
  function Turn<M>(labels: map<byte, bool>, readers: Readers<M>, l: EventLoop<M>): (r: EventLoop<M>)
    requires l.state.players != []
    ensures r.state.players != []
  {
    if Ended(l) || l.queue[0].message == [] then l
    else
      var r := ReadGame(labels, readers, l.queue[0].senderID, l.state, l.queue[0].message);
      EventLoop(r.state, if r.thrown then l.queue else l.queue[1..], r.thrown)
  }

  function Turns<M>(labels: map<byte, bool>, readers: Readers<M>, l: EventLoop<M>, n: nat): (r: EventLoop<M>)
    requires l.state.players != []
    ensures r.state.players != []
    decreases n
  {
    if n == 0 then l else Turns(labels, readers, Turn(labels, readers, l), n - 1)
  }

  /** Every event handled once, first to last, up to the first that throws. */
  function DrainEvents<M>(labels: map<byte, bool>, readers: Readers<M>, s: GameState<M>,
                          es: seq<BaseMessage>): (r: EventLoop<M>)
    requires s.players != []
    ensures Ended(r) && |r.state.players| == |s.players|
    decreases es
  {
    if es == [] then EventLoop(s, [], false)
    else
      var r := ReadGame(labels, readers, es[0].senderID, s, es[0].message);
      if r.thrown then EventLoop(r.state, es, true) else DrainEvents(labels, readers, r.state, es[1..])
  }

  /** No event without payload comes up before an exception does. */
  predicate Drainable<M>(labels: map<byte, bool>, readers: Readers<M>, s: GameState<M>, es: seq<BaseMessage>)
    requires s.players != []
    decreases es
  {
    es == []
    || (es[0].message != []
        && var r := ReadGame(labels, readers, es[0].senderID, s, es[0].message);
           r.thrown || Drainable(labels, readers, r.state, es[1..]))
  }

  /** The loop spins for ever on an event without payload. */
  lemma {:induction false} Spins<M>(labels: map<byte, bool>, readers: Readers<M>, l: EventLoop<M>, n: nat)
    requires l.state.players != [] && Turn(labels, readers, l) == l
    ensures Turns(labels, readers, l, n) == l
    decreases n
  {
    if n > 0 {
      Spins(labels, readers, l, n - 1);
    }
  }

  lemma {:induction false} EndsWhenDrainable<M>(labels: map<byte, bool>, readers: Readers<M>,
                                                 s: GameState<M>, es: seq<BaseMessage>)
    returns (n: nat)
    requires s.players != [] && Drainable(labels, readers, s, es)
    ensures Turns(labels, readers, EventLoop(s, es, false), n) == DrainEvents(labels, readers, s, es)
    decreases es
  {
    n := 0;
    if es == [] {
    } else {
      var r := ReadGame(labels, readers, es[0].senderID, s, es[0].message);
      if r.thrown {
        n := 1;
        assert Turns(labels, readers, Turn(labels, readers, EventLoop(s, es, false)), 0)
            == EventLoop(r.state, es, true);
      } else {
        var m := EndsWhenDrainable(labels, readers, r.state, es[1..]);
        n := m + 1;
      }
    }
  }

  lemma {:induction false} DrainableWhenEnds<M>(labels: map<byte, bool>, readers: Readers<M>,
                                                 s: GameState<M>, es: seq<BaseMessage>, n: nat)
    requires s.players != [] && Ended(Turns(labels, readers, EventLoop(s, es, false), n))
    ensures Drainable(labels, readers, s, es)
    decreases n
  {
    var l := EventLoop(s, es, false);
    if es == [] {
    } else {
      if es[0].message == [] {
        Spins(labels, readers, l, n);
      } else {
        var r := ReadGame(labels, readers, es[0].senderID, s, es[0].message);
        if !r.thrown {
          DrainableWhenEnds(labels, readers, r.state, es[1..], n - 1);
        }
      }
    }
  }

  /** The event loop ends if and only if no event without payload comes up before an exception,
      and then it has handled every event once, in order. */
  lemma EventLoopEndsExactly<M>(labels: map<byte, bool>, readers: Readers<M>, s: GameState<M>, es: seq<BaseMessage>)
    requires s.players != []
    ensures (exists n: nat :: Ended(Turns(labels, readers, EventLoop(s, es, false), n)))
       <==> Drainable(labels, readers, s, es)
    ensures Drainable(labels, readers, s, es)
       ==> exists n: nat :: Turns(labels, readers, EventLoop(s, es, false), n) == DrainEvents(labels, readers, s, es)
  {
    if Drainable(labels, readers, s, es) {
      var n := EndsWhenDrainable(labels, readers, s, es);
    }
    if n: nat :| Ended(Turns(labels, readers, EventLoop(s, es, false), n)) {
      DrainableWhenEnds(labels, readers, s, es, n);
    }
  }

  lemma {:induction false} NoneEmptyDrains<M>(labels: map<byte, bool>, readers: Readers<M>,
                                              s: GameState<M>, es: seq<BaseMessage>)
    requires s.players != []
    ensures NoneEmpty(es) ==> Drainable(labels, readers, s, es)
    ensures Drainable(labels, readers, s, es) && !DrainEvents(labels, readers, s, es).thrown ==> NoneEmpty(es)
    decreases es
  {
    if es == [] {
    } else {
      var r := ReadGame(labels, readers, es[0].senderID, s, es[0].message);
      NoneEmptyDrains(labels, readers, r.state, es[1..]);
      assert NoneEmpty(es) <==> es[0].message != [] && NoneEmpty(es[1..]) by {
        assert forall i :: 1 <= i < |es| ==> es[i] == es[1..][i - 1];
      }
    }
  }

  function Payloads(es: seq<BaseMessage>): (r: seq<seq<byte>>)
    ensures |r| == |es|
  {
    seq(|es|, i requires 0 <= i < |es| => es[i].message)
  }

  function Senders(es: seq<BaseMessage>): (r: seq<byte>)
    ensures |r| == |es|
  {
    seq(|es|, i requires 0 <= i < |es| => es[i].senderID)
  }

  lemma StreamsRest<M(!new)>(readers: Readers<M>, messages: seq<seq<byte>>, streams: seq<seq<Record>>)
    requires AreStreams(readers, messages, streams) && messages != []
    ensures AreStreams(readers, messages[1..], streams[1..])
  {
    assert forall i :: 0 <= i < |streams[1..]| ==> streams[1..][i] == streams[i + 1];
    assert forall i :: 0 <= i < |messages[1..]| ==> messages[1..][i] == messages[i + 1];
  }

  lemma DrainFirst<M(!new)>(labels: map<byte, bool>, readers: Readers<M>, s: GameState<M>, e: BaseMessage,
                            stream: seq<Record>, tail: seq<BaseMessage>)
    requires s.players != [] && AllWellFormed(readers, stream) && Sized(stream) && e.message == Stream(stream)
    ensures var t := ApplyAll(readers, e.senderID, s, KeepEnabled(labels, stream));
            t.players != [] && DrainEvents(labels, readers, s, [e] + tail) == DrainEvents(labels, readers, t, tail)
  {
    ReadStream(labels, readers, e.senderID, s, stream);
    ApplyAllKeepsSlots(readers, e.senderID, s, KeepEnabled(labels, stream));
    ConcatSplits([e], tail);
  }

  lemma EventsStep<M(!new)>(readers: Readers<M>, es: seq<BaseMessage>, streams: seq<seq<Record>>)
    requires AreStreams(readers, Payloads(es), streams) && es != []
    ensures AllWellFormed(readers, streams[0]) && Sized(streams[0]) && es[0].message == Stream(streams[0])
    ensures AreStreams(readers, Payloads(es[1..]), streams[1..])
    ensures Senders(es)[0] == es[0].senderID && Senders(es)[1..] == Senders(es[1..])
  {
    assert Payloads(es)[0] == es[0].message;
    assert Payloads(es)[1..] == Payloads(es[1..]);
    StreamsRest(readers, Payloads(es), streams);
  }

  lemma {:induction false} EventsThenRest<M(!new)>(labels: map<byte, bool>, readers: Readers<M>, s: GameState<M>,
                                                   es: seq<BaseMessage>, streams: seq<seq<Record>>,
                                                   rest: seq<BaseMessage>)
    requires s.players != [] && AreStreams(readers, Payloads(es), streams)
    ensures DrainEvents(labels, readers, s, es + rest)
         == DrainEvents(labels, readers, ApplyStreams(labels, readers, s, Senders(es), streams), rest)
    decreases es
  {
    if es == [] {
      assert es + rest == rest;
    } else {
      EventsStep(readers, es, streams);
      DrainFirst(labels, readers, s, es[0], streams[0], es[1..] + rest);
      assert es + rest == [es[0]] + (es[1..] + rest);
      var t := ApplyAll(readers, es[0].senderID, s, KeepEnabled(labels, streams[0]));
      EventsThenRest(labels, readers, t, es[1..], streams[1..], rest);
    }
  }

  /** Draining events that are well-formed streams applies their enabled records, event by event and
      record by record, each under its sender's id; and an event that throws after them stays at the
      head of the queue with all that follow. */
  lemma EventsApplied<M(!new)>(labels: map<byte, bool>, readers: Readers<M>, s: GameState<M>,
                               es: seq<BaseMessage>, streams: seq<seq<Record>>, rest: seq<BaseMessage>)
    requires s.players != [] && AreStreams(readers, Payloads(es), streams)
    requires var t := ApplyStreams(labels, readers, s, Senders(es), streams);
             rest == [] || ReadGame(labels, readers, rest[0].senderID, t, rest[0].message).thrown
    ensures var t := ApplyStreams(labels, readers, s, Senders(es), streams);
            DrainEvents(labels, readers, s, es + rest)
            == if rest == [] then EventLoop(t, [], false)
               else EventLoop(ReadGame(labels, readers, rest[0].senderID, t, rest[0].message).state, rest, true)
  {
    EventsThenRest(labels, readers, s, es, streams, rest);
  }

  // ---------------------------------------------------------------- snapshots and writing

  /** The copied snapshots, in ascending order of sender, up to the first that throws. */
  function ReadSnapshots<M>(labels: map<byte, bool>, readers: Readers<M>, s: GameState<M>,
                            snaps: map<byte, BaseMessage>, ids: seq<byte>): (r: Outcome<M>)
    requires s.players != [] && forall i :: 0 <= i < |ids| ==> ids[i] in snaps
    ensures |r.state.players| == |s.players|
    decreases ids
  {
    if ids == [] then Outcome(s, [], false)
    else
      var r := ReadGame(labels, readers, ids[0], s, snaps[ids[0]].message);
      if r.thrown then r else ReadSnapshots(labels, readers, r.state, snaps, ids[1..])
  }

  function SnapPayloads(snaps: map<byte, BaseMessage>, ids: seq<byte>): (r: seq<seq<byte>>)
    requires forall i :: 0 <= i < |ids| ==> ids[i] in snaps
    ensures |r| == |ids|
  {
    seq(|ids|, i requires 0 <= i < |ids| => snaps[ids[i]].message)
  }

  lemma SnapshotsStep<M(!new)>(labels: map<byte, bool>, readers: Readers<M>, s: GameState<M>,
                               snaps: map<byte, BaseMessage>, ids: seq<byte>, streams: seq<seq<Record>>)
    requires s.players != [] && ids != [] && forall i :: 0 <= i < |ids| ==> ids[i] in snaps
    requires AreStreams(readers, SnapPayloads(snaps, ids), streams)
    ensures var t := ApplyAll(readers, ids[0], s, KeepEnabled(labels, streams[0]));
            && t.players != []
            && ReadSnapshots(labels, readers, s, snaps, ids) == ReadSnapshots(labels, readers, t, snaps, ids[1..])
    ensures AreStreams(readers, SnapPayloads(snaps, ids[1..]), streams[1..])
  {
    assert SnapPayloads(snaps, ids)[0] == snaps[ids[0]].message;
    assert SnapPayloads(snaps, ids)[1..] == SnapPayloads(snaps, ids[1..]);
    StreamsRest(readers, SnapPayloads(snaps, ids), streams);
    ReadStream(labels, readers, ids[0], s, streams[0]);
    ApplyAllKeepsSlots(readers, ids[0], s, KeepEnabled(labels, streams[0]));
  }

  /** Reading snapshots that are well-formed streams applies all of them in the order of the ids. */
  lemma {:induction false} SnapshotsApplied<M(!new)>(labels: map<byte, bool>, readers: Readers<M>, s: GameState<M>,
                                                     snaps: map<byte, BaseMessage>, ids: seq<byte>,
                                                     streams: seq<seq<Record>>)
    requires s.players != [] && forall i :: 0 <= i < |ids| ==> ids[i] in snaps
    requires AreStreams(readers, SnapPayloads(snaps, ids), streams)
    ensures ReadSnapshots(labels, readers, s, snaps, ids)
         == Outcome(ApplyStreams(labels, readers, s, ids, streams), [], false)
    decreases ids
  {
    if ids == [] {
    } else {
      SnapshotsStep(labels, readers, s, snaps, ids, streams);
      SnapshotsApplied(labels, readers, ApplyAll(readers, ids[0], s, KeepEnabled(labels, streams[0])),
                       snaps, ids[1..], streams[1..]);
    }
  }

  lemma {:induction false} SnapshotsThenRest<M(!new)>(labels: map<byte, bool>, readers: Readers<M>, s: GameState<M>,
                                                      snaps: map<byte, BaseMessage>, ids: seq<byte>,
                                                      streams: seq<seq<Record>>, rest: seq<byte>)
    requires s.players != [] && forall i :: 0 <= i < |ids + rest| ==> (ids + rest)[i] in snaps
    requires forall i :: 0 <= i < |ids| ==> ids[i] in snaps
    requires forall i :: 0 <= i < |rest| ==> rest[i] in snaps
    requires AreStreams(readers, SnapPayloads(snaps, ids), streams)
    ensures ReadSnapshots(labels, readers, s, snaps, ids + rest)
         == ReadSnapshots(labels, readers, ApplyStreams(labels, readers, s, ids, streams), snaps, rest)
    decreases ids
  {
    if ids == [] {
      assert ids + rest == rest;
    } else {
      SnapshotsStep(labels, readers, s, snaps, ids, streams);
      var t := ApplyAll(readers, ids[0], s, KeepEnabled(labels, streams[0]));
      assert SnapPayloads(snaps, ids)[0] == snaps[ids[0]].message;
      ReadStream(labels, readers, ids[0], s, streams[0]);
      assert (ids + rest)[0] == ids[0] && (ids + rest)[1..] == ids[1..] + rest;
      SnapshotsThenRest(labels, readers, t, snaps, ids[1..], streams[1..], rest);
    }
  }

  /** A snapshot that throws ends the reading; what was read before it stays, and none after it is read. */
  lemma SnapshotsStop<M(!new)>(labels: map<byte, bool>, readers: Readers<M>, s: GameState<M>,
                               snaps: map<byte, BaseMessage>, ids: seq<byte>, streams: seq<seq<Record>>,
                               bad: byte, rest: seq<byte>)
    requires s.players != [] && bad in snaps
    requires forall i :: 0 <= i < |ids| ==> ids[i] in snaps
    requires forall i :: 0 <= i < |rest| ==> rest[i] in snaps
    requires AreStreams(readers, SnapPayloads(snaps, ids), streams)
    requires ReadGame(labels, readers, bad, ApplyStreams(labels, readers, s, ids, streams), snaps[bad].message).thrown
    ensures forall i :: 0 <= i < |ids + ([bad] + rest)| ==> (ids + ([bad] + rest))[i] in snaps
    ensures ReadSnapshots(labels, readers, s, snaps, ids + ([bad] + rest))
         == ReadGame(labels, readers, bad, ApplyStreams(labels, readers, s, ids, streams), snaps[bad].message)
  {
    SnapshotsThenRest(labels, readers, s, snaps, ids, streams, [bad] + rest);
    assert ([bad] + rest)[0] == bad;
  }

  /** The sender's snapshot is one pose record. */
  predicate IsPose(m: BaseMessage) {
    |m.message| == 2 + SNAP_SIZE && m.message[0] == CONNECTED_PLAYER_SNAP && m.message[1] == SNAP_SIZE
  }

  /** The ids are different, each has a slot and a pose. */
  predicate PosesFor(players: seq<ConnectedPlayer>, snaps: map<byte, BaseMessage>, ids: seq<byte>) {
    && (forall i, j :: 0 <= i < j < |ids| ==> ids[i] != ids[j])
    && (forall i :: 0 <= i < |ids| ==> ids[i] in snaps && IsPose(snaps[ids[i]]) && Slotted(players, ids[i]))
  }

  lemma PoseIsRead<M(!new)>(labels: map<byte, bool>, readers: Readers<M>, s: GameState<M>, sender: byte, m: BaseMessage)
    requires IsPose(m) && Slotted(s.players, sender) && LabelEnabled(labels, CONNECTED_PLAYER_SNAP)
    ensures var i := FirstSlot(s.players, sender);
            ReadGame(labels, readers, sender, s, m.message)
            == Outcome(s.(players := s.players[i := SnapFields(s.players[i], m.message[2..])]), [], false)
  {
    var r := Record(CONNECTED_PLAYER_SNAP, m.message[2..]);
    assert m.message == RecordBytes(r) + [];
    ReadFirst(labels, readers, sender, s, r, []);
  }

  lemma SlotsStay(players: seq<ConnectedPlayer>, i: nat, p: ConnectedPlayer, sender: byte)
    requires i < |players| && p.id == players[i].id && Slotted(players, sender)
    ensures Slotted(players[i := p], sender) && FirstSlot(players[i := p], sender) == FirstSlot(players, sender)
  {
    var updated := players[i := p];
    assert updated[FirstSlot(players, sender)].id == sender;
    assert players[FirstSlot(updated, sender)].id == sender;
  }

  lemma PosesLeft(players: seq<ConnectedPlayer>, snaps: map<byte, BaseMessage>, ids: seq<byte>,
                  i: nat, p: ConnectedPlayer)
    requires PosesFor(players, snaps, ids) && ids != [] && i < |players| && p.id == players[i].id
    ensures PosesFor(players[i := p], snaps, ids[1..])
    ensures forall k :: 1 <= k < |ids| ==>
              Slotted(players[i := p], ids[k]) && FirstSlot(players[i := p], ids[k]) == FirstSlot(players, ids[k])
  {
    forall k | 1 <= k < |ids|
      ensures Slotted(players[i := p], ids[k]) && FirstSlot(players[i := p], ids[k]) == FirstSlot(players, ids[k])
    {
      SlotsStay(players, i, p, ids[k]);
    }
  }

  lemma FirstPoseRead<M(!new)>(labels: map<byte, bool>, readers: Readers<M>, s: GameState<M>,
                               snaps: map<byte, BaseMessage>, ids: seq<byte>)
    returns (t: GameState<M>)
    requires s.players != [] && PosesFor(s.players, snaps, ids) && LabelEnabled(labels, CONNECTED_PLAYER_SNAP)
    requires ids != []
    ensures var i := FirstSlot(s.players, ids[0]);
            t == s.(players := s.players[i := SnapFields(s.players[i], snaps[ids[0]].message[2..])])
    ensures PosesFor(t.players, snaps, ids[1..])
    ensures forall k :: 1 <= k < |ids| ==>
              FirstSlot(t.players, ids[k]) == FirstSlot(s.players, ids[k]) != FirstSlot(s.players, ids[0])
    ensures ReadSnapshots(labels, readers, s, snaps, ids) == ReadSnapshots(labels, readers, t, snaps, ids[1..])
  {
    var i, m := FirstSlot(s.players, ids[0]), snaps[ids[0]];
    var p := SnapFields(s.players[i], m.message[2..]);
    t := s.(players := s.players[i := p]);
    PoseIsRead(labels, readers, s, ids[0], m);
    PosesLeft(s.players, snaps, ids, i, p);
    assert forall k :: 0 <= k < |ids[1..]| ==> ids[1..][k] == ids[k + 1];
  }

  lemma {:induction false} OtherSlotsKept<M(!new)>(labels: map<byte, bool>, readers: Readers<M>, s: GameState<M>,
                                                   snaps: map<byte, BaseMessage>, ids: seq<byte>, j: nat)
    requires s.players != [] && PosesFor(s.players, snaps, ids) && LabelEnabled(labels, CONNECTED_PLAYER_SNAP)
    requires j < |s.players| && forall k :: 0 <= k < |ids| ==> FirstSlot(s.players, ids[k]) != j
    ensures var r := ReadSnapshots(labels, readers, s, snaps, ids);
            !r.thrown && r.state.main == s.main && r.state.players[j] == s.players[j]
    decreases ids
  {
    if ids == [] {
    } else {
      var t := FirstPoseRead(labels, readers, s, snaps, ids);
      OtherSlotsKept(labels, readers, t, snaps, ids[1..], j);
    }
  }

  lemma FirstPoseStays<M(!new)>(labels: map<byte, bool>, readers: Readers<M>, s: GameState<M>,
                                snaps: map<byte, BaseMessage>, ids: seq<byte>)
    requires s.players != [] && PosesFor(s.players, snaps, ids) && LabelEnabled(labels, CONNECTED_PLAYER_SNAP)
    requires ids != []
    ensures var r, j := ReadSnapshots(labels, readers, s, snaps, ids), FirstSlot(s.players, ids[0]);
            && !r.thrown && r.state.main == s.main
            && r.state.players[j] == SnapFields(s.players[j], snaps[ids[0]].message[2..])
  {
    var t := FirstPoseRead(labels, readers, s, snaps, ids);
    var rest := ids[1..];
    forall l | 0 <= l < |rest|
      ensures FirstSlot(t.players, rest[l]) != FirstSlot(s.players, ids[0])
    {
      assert rest[l] == ids[l + 1];
    }
    OtherSlotsKept(labels, readers, t, snaps, rest, FirstSlot(s.players, ids[0]));
  }

  lemma {:induction false} PosesBefore<M(!new)>(labels: map<byte, bool>, readers: Readers<M>, s: GameState<M>,
                                                snaps: map<byte, BaseMessage>, ids: seq<byte>, k: nat, j: nat)
    returns (t: GameState<M>)
    requires s.players != [] && PosesFor(s.players, snaps, ids) && LabelEnabled(labels, CONNECTED_PLAYER_SNAP)
    requires k < |ids| && j == FirstSlot(s.players, ids[k])
    ensures PosesFor(t.players, snaps, ids[k..]) && |t.players| == |s.players|
    ensures t.main == s.main && FirstSlot(t.players, ids[k]) == j && t.players[j] == s.players[j]
    ensures ReadSnapshots(labels, readers, s, snaps, ids) == ReadSnapshots(labels, readers, t, snaps, ids[k..])
    decreases k
  {
    if k == 0 {
      t := s;
      assert ids[0..] == ids;
    } else {
      var u := FirstPoseRead(labels, readers, s, snaps, ids);
      var rest := ids[1..];
      assert rest[k - 1] == ids[k] && rest[k - 1..] == ids[k..];
      t := PosesBefore(labels, readers, u, snaps, rest, k - 1, j);
    }
  }

  /** Every sender with a slot gets its snapshot into that slot, nothing is thrown and the main player is
      left alone; `OtherSlotsKept` says that no other slot changes. */
  lemma SnapshotsReachSlots<M(!new)>(labels: map<byte, bool>, readers: Readers<M>, s: GameState<M>,
                                     snaps: map<byte, BaseMessage>, ids: seq<byte>, k: nat)
    requires s.players != [] && PosesFor(s.players, snaps, ids) && LabelEnabled(labels, CONNECTED_PLAYER_SNAP)
    requires k < |ids|
    ensures var r, j := ReadSnapshots(labels, readers, s, snaps, ids), FirstSlot(s.players, ids[k]);
            && !r.thrown && r.state.main == s.main
            && r.state.players[j] == SnapFields(s.players[j], snaps[ids[k]].message[2..])
  {
    var t := PosesBefore(labels, readers, s, snaps, ids, k, FirstSlot(s.players, ids[k]));
    FirstPoseStays(labels, readers, t, snaps, ids[k..]);
  }

  /** What `writeMessage` sends: the messages with a payload, under the client's id. */
  function Outbox(id: byte, ms: seq<BaseMessage>): seq<BaseMessage> {
    if ms == [] then []
    else
      var last := ms[|ms| - 1];
      Outbox(id, ms[..|ms| - 1]) + if last.message != [] then [last.(senderID := id)] else []
  }

  lemma OutboxStep(id: byte, ms: seq<BaseMessage>, i: nat)
    requires i < |ms|
    ensures Outbox(id, ms[..i + 1])
         == if ms[i].message != [] then Outbox(id, ms[..i]) + [ms[i].(senderID := id)] else Outbox(id, ms[..i])
  {
    assert ms[..i + 1][..i] == ms[..i];
    assert Outbox(id, ms[..i]) + [] == Outbox(id, ms[..i]);
  }

  lemma {:induction false} OutboxCarriesData(id: byte, ms: seq<BaseMessage>)
    ensures NoneEmpty(Outbox(id, ms))
  {
    if ms == [] {
    } else {
      OutboxCarriesData(id, ms[..|ms| - 1]);
    }
  }

  /** Where the messages with a payload stand. */
  function Sources(ms: seq<BaseMessage>): seq<nat> {
    if ms == [] then []
    else
      var i := |ms| - 1;
      if ms[i].message != [] then Sources(ms[..i]) + [i] else Sources(ms[..i])
  }

  lemma {:induction false} SourcesExactly(ms: seq<BaseMessage>)
    ensures forall i: nat :: i in Sources(ms) <==> i < |ms| && ms[i].message != []
    ensures forall k, l :: 0 <= k < l < |Sources(ms)| ==> Sources(ms)[k] < Sources(ms)[l]
  {
    if ms == [] {
    } else {
      var init := ms[..|ms| - 1];
      SourcesExactly(init);
      forall k | 0 <= k < |Sources(init)|
        ensures Sources(init)[k] < |init|
      {
        assert Sources(init)[k] in Sources(init);
      }
    }
  }

  lemma {:induction false} OutboxCounted(id: byte, ms: seq<BaseMessage>)
    ensures |Outbox(id, ms)| == |Sources(ms)|
  {
    if ms == [] {
    } else {
      OutboxCounted(id, ms[..|ms| - 1]);
    }
  }

  /** Exactly the messages with a payload are sent, in order, altered in the sender's id alone. */
  lemma {:induction false} OutboxExactly(id: byte, ms: seq<BaseMessage>, k: nat)
    requires k < |Sources(ms)|
    ensures |Outbox(id, ms)| == |Sources(ms)| && Sources(ms)[k] < |ms|
    ensures var sent, m := Outbox(id, ms)[k], ms[Sources(ms)[k]];
            sent.messageType == m.messageType && sent.message == m.message && sent.senderID == id
  {
    OutboxCounted(id, ms);
    OutboxCounted(id, ms[..|ms| - 1]);
    if k < |Sources(ms[..|ms| - 1])| {
      OutboxExactly(id, ms[..|ms| - 1], k);
    }
  }

  class HobbitClient<M(!new)> {
    const client: Client
    const connectedPlayers: array<ConnectedPlayer>
    const readers: Readers<M>
    var mainPlayer: M
    var messageLabelStates: map<byte, bool>
    var running: bool

    predicate Valid()
      reads this
    {
      connectedPlayers.Length == MAX_PLAYERS
    }

    function Game(): GameState<M>
      reads this, connectedPlayers
    {
      GameState(connectedPlayers[..], mainPlayer)
    }

    constructor (client: Client, readers: Readers<M>, mainPlayer: M, blank: ConnectedPlayer)
      ensures Valid() && fresh(connectedPlayers) && this.client == client && this.readers == readers
      ensures forall tag: byte :: LabelEnabled(messageLabelStates, tag)
      ensures forall i :: 0 <= i < MAX_PLAYERS ==> connectedPlayers[i].id == -1
    {
      this.client, this.readers, this.mainPlayer := client, readers, mainPlayer;
      connectedPlayers := new ConnectedPlayer[MAX_PLAYERS](_ => blank.(id := -1));
      messageLabelStates := map[0 := true, 1 := true, 2 := true, 3 := true, 4 := true];
      running := false;
    }

    method SetMessageLabelProcessing(tag: byte, enable: bool)
      modifies this`messageLabelStates
      ensures LabelEnabled(messageLabelStates, tag) == enable
      ensures forall t: byte :: t != tag ==>
                LabelEnabled(messageLabelStates, t) == LabelEnabled(old(messageLabelStates), t)
    {
      messageLabelStates := messageLabelStates[tag := enable];
    }

    method OnClientListUpdate(clientIDs: seq<byte>)
      requires Valid()
      modifies this`running, connectedPlayers
      ensures running <==> clientIDs != []
      ensures connectedPlayers[..] == AssignSlots(old(connectedPlayers[..]), clientIDs)
    {
      running := clientIDs != [];
      var connectedClients := clientIDs;
      for i := 0 to MAX_PLAYERS
        invariant running <==> clientIDs != []
        invariant connectedClients == Drop(clientIDs, i)
        invariant forall j :: 0 <= j < i ==> connectedPlayers[j] == AssignSlots(old(connectedPlayers[..]), clientIDs)[j]
        invariant forall j :: i <= j < MAX_PLAYERS ==> connectedPlayers[j] == old(connectedPlayers[j])
      {
        var id := if connectedClients == [] then -1 else connectedClients[0];
        connectedPlayers[i] := connectedPlayers[i].(id := id);
        if connectedClients != [] {
          connectedClients := connectedClients[1..];
        }
      }
    }

    /** `find_if` over the slots. */
    method FindPlayer(sender: byte) returns (i: nat)
      requires Valid()
      ensures i < MAX_PLAYERS && i == SlotOf(connectedPlayers[..], sender)
    {
      i := 0;
      while i < MAX_PLAYERS && connectedPlayers[i].id != sender
        invariant 0 <= i <= MAX_PLAYERS
        invariant forall j :: 0 <= j < i ==> connectedPlayers[j].id != sender
      {
        i := i + 1;
      }
      if i == MAX_PLAYERS {
        assert !Slotted(connectedPlayers[..], sender);
        return 0;
      }
      assert connectedPlayers[..][i].id == sender;
      assert FirstSlot(connectedPlayers[..], sender) == i;
    }

    /** One enabled record; the reader takes the queue and leaves what it does not pop. */
    method ReadRecordData(sender: byte, tag: byte, data: seq<byte>) returns (rest: seq<byte>, thrown: bool)
      requires Valid()
      modifies this`mainPlayer, connectedPlayers
      ensures Outcome(Game(), rest, thrown) == ReadRecord(readers, sender, old(Game()), tag, data)
    {
      rest, thrown := data, false;
      if tag == CONNECTED_PLAYER_SNAP {
        var i := FindPlayer(sender);
        var p;
        p, rest, thrown := ReadConnectedPlayerSnap(connectedPlayers[i], data);
        connectedPlayers[i] := p;
        assert connectedPlayers[..] == old(connectedPlayers[..])[i := p];
      } else if tag == ENEMIES_HEALTH {
        var r := readers.health(mainPlayer, data);
        mainPlayer, rest, thrown := r.main, Drop(data, r.popped), r.thrown;
      } else if tag == CONNECTED_PLAYER_LEVEL {
        var r := readers.level(mainPlayer, data);
        mainPlayer, rest, thrown := r.main, Drop(data, r.popped), r.thrown;
      } else if tag == INVENTORY {
        var r := readers.inventory(mainPlayer, data);
        mainPlayer, rest, thrown := r.main, Drop(data, r.popped), r.thrown;
      }
    }

    /** The skipping loop for a disabled label. */
    method Skip(size: byte, data: seq<byte>) returns (rest: seq<byte>)
      ensures rest == Drop(data, size)
    {
      rest := data;
      for i := 0 to size
        invariant rest == Drop(data, i)
      {
        if rest == [] { break; }
        rest := rest[1..];
      }
    }

    method ReadGameMessage(sender: byte, gameData: seq<byte>) returns (rest: seq<byte>, thrown: bool)
      requires Valid()
      modifies this`mainPlayer, connectedPlayers
      ensures Outcome(Game(), rest, thrown) == ReadGame(messageLabelStates, readers, sender, old(Game()), gameData)
    {
      rest, thrown := gameData, false;
      while rest != []
        invariant ReadGame(messageLabelStates, readers, sender, Game(), rest)
               == ReadGame(messageLabelStates, readers, sender, old(Game()), gameData)
        decreases |rest|
      {
        var tag := rest[0];
        if |rest| == 1 {
          rest := [];
          break;
        }
        var size := rest[1];
        var body := rest[2..];
        if tag in messageLabelStates && !messageLabelStates[tag] {
          rest := Skip(size, body);
        } else {
          rest, thrown := ReadRecordData(sender, tag, body);
          if thrown { break; }
        }
      }
    }

    /** One text at most: a text without payload stays at the head of its queue. */
    method ReadText()
      modifies client
      ensures client.View() == old(client.View()).(texts :=
                if old(client.textMessages) != [] && old(client.textMessages)[0].message != []
                then old(client.textMessages)[1..] else old(client.textMessages))
    {
      var m := client.FrontTextMessage();
      if |m.message| > 0 {
        client.PopFrontTextMessage();
      }
    }

    method ReadEvents() returns (thrown: bool)
      requires Valid() && Drainable(messageLabelStates, readers, Game(), client.eventMessages)
      modifies this`mainPlayer, connectedPlayers, client
      ensures EventLoop(Game(), client.eventMessages, thrown)
           == DrainEvents(messageLabelStates, readers, old(Game()), old(client.eventMessages))
      ensures client.View() == old(client.View()).(events := client.eventMessages)
    {
      thrown := false;
      while |client.eventMessages| > 0
        invariant Drainable(messageLabelStates, readers, Game(), client.eventMessages)
        invariant DrainEvents(messageLabelStates, readers, Game(), client.eventMessages)
               == DrainEvents(messageLabelStates, readers, old(Game()), old(client.eventMessages))
        invariant client.View() == old(client.View()).(events := client.eventMessages)
        decreases |client.eventMessages|
      {
        var m := client.FrontEventMessage();
        if |m.message| > 0 {
          var rest;
          rest, thrown := ReadGameMessage(m.senderID, m.message);
          if thrown { return; }
          client.PopFrontEventMessage();
        }
      }
    }

    method ReadSnaps() returns (thrown: bool)
      requires Valid()
      modifies this`mainPlayer, connectedPlayers, client
      ensures SortedSeqOf(old(client.snapshotMessages))
      ensures var r := ReadSnapshots(messageLabelStates, readers, old(Game()), old(client.snapshotMessages),
                                     SortedIds(old(client.snapshotMessages)));
              Game() == r.state && thrown == r.thrown
      ensures client.View() == old(client.View()).(snapshots := client.snapshotMessages)
      ensures !thrown ==> client.snapshotMessages == map[]
      ensures thrown ==>
        var snaps := old(client.snapshotMessages);
        && SortedIds(snaps) != []
        && client.snapshotMessages
           == if ReadGame(messageLabelStates, readers, SortedIds(snaps)[0], old(Game()),
                          snaps[SortedIds(snaps)[0]].message).thrown then snaps else map[]
    {
      var snaps := client.snapshotMessages;
      var ids := CollectIds(snaps);
      SortedIdsAreKeys(snaps);
      thrown := false;
      ghost var firstThrows := |ids| > 0
        && ReadGame(messageLabelStates, readers, ids[0], Game(), snaps[ids[0]].message).thrown;
      for i := 0 to |ids|
        invariant ReadSnapshots(messageLabelStates, readers, Game(), snaps, ids[i..])
               == ReadSnapshots(messageLabelStates, readers, old(Game()), snaps, ids)
        invariant client.View() == old(client.View()).(snapshots := if i == 0 then snaps else map[])
        invariant if i == 0 then Game() == old(Game()) else !firstThrows
      {
        var rest;
        assert ids[i..][1..] == ids[i + 1..];
        rest, thrown := ReadGameMessage(ids[i], snaps[ids[i]].message);
        if thrown { return; }
        client.ClearSnapMessage();
      }
      if |ids| == 0 {
        assert forall id :: id in snaps ==> id in ids;
        assert snaps == map[];
      }
    }

    /** `readMessage`: one text, all events, all snapshots. */
    method ReadMessage() returns (thrown: bool)
      requires Valid() && Drainable(messageLabelStates, readers, Game(), client.eventMessages)
      modifies this`mainPlayer, connectedPlayers, client
      ensures SortedSeqOf(old(client.snapshotMessages))
      ensures var d := DrainEvents(messageLabelStates, readers, old(Game()), old(client.eventMessages));
              var r := ReadSnapshots(messageLabelStates, readers, d.state, old(client.snapshotMessages),
                                     SortedIds(old(client.snapshotMessages)));
              && client.eventMessages == d.queue
              && (if d.thrown then thrown && Game() == d.state else Game() == r.state && thrown == r.thrown)
      ensures !thrown ==> client.eventMessages == [] && client.snapshotMessages == map[]
      ensures client.connectedClientsInfo == old(client.connectedClientsInfo) && client.clientID == old(client.clientID)
    {
      SortedIdsAreKeys(client.snapshotMessages);
      ReadText();
      thrown := ReadEvents();
      if thrown { return; }
      thrown := ReadSnaps();
    }

    method WriteMessage(sock: Socket, messages: seq<BaseMessage>)
      modifies sock
      ensures sock.outgoing == old(sock.outgoing) + Frames(Outbox(client.clientID, messages))
      ensures sock.incoming == old(sock.incoming)
    {
      for i := 0 to |messages|
        invariant sock.incoming == old(sock.incoming)
        invariant sock.outgoing == old(sock.outgoing) + Frames(Outbox(client.clientID, messages[..i]))
      {
        var e := messages[i].(senderID := client.clientID);
        ghost var before := Outbox(client.clientID, messages[..i]);
        OutboxStep(client.clientID, messages, i);
        if |e.message| > 0 {
          client.SendMessage(sock, e);
          FramesSnoc(before, e);
          ConcatAssociates(old(sock.outgoing), Frames(before), Frame(e));
        }
      }
      assert messages[..|messages|] == messages;
    }
  }

  ghost predicate SortedSeqOf<T>(m: map<byte, T>) {
    forall i :: 0 <= i < |SortedIds(m)| ==> SortedIds(m)[i] in m
  }

  lemma SortedIdsAreKeys<T>(m: map<byte, T>)
    ensures SortedSeqOf(m)
    ensures forall id :: id in m ==> id in SortedIds(m)
  {
    SortedSeqSorted(m.Keys);
    forall i | 0 <= i < |SortedIds(m)|
      ensures SortedIds(m)[i] in m
    {
      assert SortedIds(m)[i] in SortedIds(m);
    }
  }

  /** So one reading of the snapshot map leaves every slotted sender's pose in that sender's slot. */
  lemma AllSnapshotsArrive<M(!new)>(labels: map<byte, bool>, readers: Readers<M>, s: GameState<M>,
                                    snaps: map<byte, BaseMessage>, id: byte)
    requires s.players != [] && LabelEnabled(labels, CONNECTED_PLAYER_SNAP) && id in snaps
    requires forall sender :: sender in snaps ==> IsPose(snaps[sender]) && Slotted(s.players, sender)
    ensures SortedSeqOf(snaps) && IsPose(snaps[id])
    ensures var r, j := ReadSnapshots(labels, readers, s, snaps, SortedIds(snaps)), FirstSlot(s.players, id);
            && !r.thrown && r.state.main == s.main
            && r.state.players[j] == SnapFields(s.players[j], snaps[id].message[2..])
  {
    var ids := SortedIds(snaps);
    SortedSeqSorted(snaps.Keys);
    SortedIdsAreKeys(snaps);
    var k :| 0 <= k < |ids| && ids[k] == id;
    SnapshotsReachSlots(labels, readers, s, snaps, ids, k);
  }
}
