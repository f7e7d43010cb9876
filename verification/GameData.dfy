/** The label/size/payload stream inside events and snapshots, and the seven player slots. */
module GameData {
  import opened Bytes
  import opened ClientSide
  import opened Wire

  const CONNECTED_PLAYER_SNAP: byte := 1
  const CONNECTED_PLAYER_LEVEL: byte := 2
  const ENEMIES_HEALTH: byte := 3
  const INVENTORY: byte := 4

  const MAX_PLAYERS := 7
  const SNAP_SIZE := 30

  /** A slot: the id of the client it stands for (-1 for none) and the fields of its last snapshot,
      multi-byte fields as the bytes they are copied from. */
  datatype ConnectedPlayer = ConnectedPlayer(
    id: int, hostLevel: byte, animation: seq<byte>, animFrame: seq<byte>, lastAnimFrame: seq<byte>,
    positionX: seq<byte>, positionY: seq<byte>, positionZ: seq<byte>, rotationY: seq<byte>, weapon: byte)

  // ---------------------------------------------------------------- one snapshot record

  function Field(data: seq<byte>, offset: nat, size: nat, keep: seq<byte>): seq<byte> {
    if |data| < offset + size then keep else data[offset..offset + size]
  }

  /** Each field is taken from its place in the data if the data reaches that far. */
  function SnapFields(p: ConnectedPlayer, data: seq<byte>): ConnectedPlayer {
    ConnectedPlayer(
      p.id,
      if |data| < 1 then p.hostLevel else data[0],
      Field(data, 1, 4, p.animation), Field(data, 5, 4, p.animFrame), Field(data, 9, 4, p.lastAnimFrame),
      Field(data, 13, 4, p.positionX), Field(data, 17, 4, p.positionY), Field(data, 21, 4, p.positionZ),
      Field(data, 25, 4, p.rotationY),
      if |data| < 30 then p.weapon else data[29])
  }

  /** Bytes popped when the data is short: the whole fields before the missing one. */
  function SnapPopped(n: nat): nat {
    if n < 1 then 0 else if n < 5 then 1 else if n < 9 then 5 else if n < 13 then 9 else if n < 17 then 13
    else if n < 21 then 17 else if n < 25 then 21 else if n < 29 then 25 else if n < 30 then 29 else SNAP_SIZE
  }

  /** Nine fields, in the order and with the sizes of their types, as far as the data reaches. */
  lemma FieldsInPlace(p: ConnectedPlayer, data: seq<byte>)
    ensures var q, n := SnapFields(p, data), |data|;
            && q.id == p.id
            && q.hostLevel == (if n >= 1 then data[0] else p.hostLevel)
            && q.animation == (if n >= 5 then data[1..5] else p.animation)
            && q.animFrame == (if n >= 9 then data[5..9] else p.animFrame)
            && q.lastAnimFrame == (if n >= 13 then data[9..13] else p.lastAnimFrame)
            && q.positionX == (if n >= 17 then data[13..17] else p.positionX)
            && q.positionY == (if n >= 21 then data[17..21] else p.positionY)
            && q.positionZ == (if n >= 25 then data[21..25] else p.positionZ)
            && q.rotationY == (if n >= 29 then data[25..29] else p.rotationY)
            && q.weapon == (if n >= 30 then data[29] else p.weapon)
  {
  }

  const FIELD_ENDS: seq<nat> := [0, 1, 5, 9, 13, 17, 21, 25, 29, 30]

  /** What is popped ends with a field, and the next field does not fit. */
  lemma PoppedIsWholeFields(n: nat)
    ensures var k := SnapPopped(n);
            && k <= n && k in FIELD_ENDS
            && forall i :: 0 <= i < |FIELD_ENDS| && FIELD_ENDS[i] <= n ==> FIELD_ENDS[i] <= k
  {
  }

  /** `convertQueueToType` for a type of `size` bytes: throws, popping nothing, on a short queue. */
  method ConvertQueueToType(queue: seq<byte>, size: nat) returns (value: Option<seq<byte>>, rest: seq<byte>)
    ensures |queue| < size ==> value == None && rest == queue
    ensures |queue| >= size ==> value == Some(queue[..size]) && rest == queue[size..]
  {
    if |queue| < size {
      return None, queue;
    }
    var buffer: seq<byte> := [];
    rest := queue;
    for i := 0 to size
      invariant |rest| == |queue| - i
      invariant buffer == queue[..i] && rest == queue[i..]
    {
      buffer := buffer + [rest[0]];
      rest := rest[1..];
    }
    value := Some(buffer);
  }

  /** The same, for a queue that is what is left of `data` from `at` on. */
  method ConvertNext(ghost data: seq<byte>, ghost at: nat, queue: seq<byte>, size: nat)
    returns (value: Option<seq<byte>>, rest: seq<byte>)
    requires at <= |data| && queue == data[at..]
    ensures |data| < at + size ==> value == None && rest == data[at..]
    ensures |data| >= at + size ==> value == Some(data[at..at + size]) && rest == data[at + size..]
  {
    value, rest := ConvertQueueToType(queue, size);
    if value.Some? {
      assert data[at..][..size] == data[at..at + size];
      assert data[at..][size..] == data[at + size..];
    }
  }

  /** Reads nine fields one by one; a short queue throws between two fields. */
  method ReadConnectedPlayerSnap(p: ConnectedPlayer, gameData: seq<byte>)
    returns (q: ConnectedPlayer, rest: seq<byte>, thrown: bool)
    ensures q == SnapFields(p, gameData)
    ensures rest == gameData[SnapPopped(|gameData|)..]
    ensures thrown <==> |gameData| < SNAP_SIZE
  {
    q, rest, thrown := p, gameData, true;
    var v;
    v, rest := ConvertNext(gameData, 0, rest, 1);
    if v == None { return; }
    q := q.(hostLevel := v.value[0]);
    v, rest := ConvertNext(gameData, 1, rest, 4);
    if v == None { return; }
    q := q.(animation := v.value);
    v, rest := ConvertNext(gameData, 5, rest, 4);
    if v == None { return; }
    q := q.(animFrame := v.value);
    v, rest := ConvertNext(gameData, 9, rest, 4);
    if v == None { return; }
    q := q.(lastAnimFrame := v.value);
    v, rest := ConvertNext(gameData, 13, rest, 4);
    if v == None { return; }
    q := q.(positionX := v.value);
    v, rest := ConvertNext(gameData, 17, rest, 4);
    if v == None { return; }
    q := q.(positionY := v.value);
    v, rest := ConvertNext(gameData, 21, rest, 4);
    if v == None { return; }
    q := q.(positionZ := v.value);
    v, rest := ConvertNext(gameData, 25, rest, 4);
    if v == None { return; }
    q := q.(rotationY := v.value);
    v, rest := ConvertNext(gameData, 29, rest, 1);
    if v == None { return; }
    q := q.(weapon := v.value[0]);
    thrown := false;
  }

  // ---------------------------------------------------------------- the record stream

  /** What a reader of the main player does with the queue: a new state, how many bytes it popped
      and whether it threw. */
  datatype ReadResult<+M> = ReadResult(main: M, popped: nat, thrown: bool)

  type Reader<!M> = (M, seq<byte>) -> ReadResult<M>

  datatype Readers<!M> = Readers(level: Reader<M>, health: Reader<M>, inventory: Reader<M>) {
    function For(tag: byte): Reader<M> {
      if tag == ENEMIES_HEALTH then health else if tag == CONNECTED_PLAYER_LEVEL then level else inventory
    }
  }

  datatype GameState<+M> = GameState(players: seq<ConnectedPlayer>, main: M)

  datatype Outcome<+M> = Outcome(state: GameState<M>, rest: seq<byte>, thrown: bool)

  function Drop(data: seq<byte>, n: nat): (rest: seq<byte>)
    ensures |rest| <= |data|
  {
    if n < |data| then data[n..] else []
  }

  predicate LabelEnabled(labels: map<byte, bool>, tag: byte) {
    tag in labels ==> labels[tag]
  }

  /** First slot with the sender's id; slot 0 when there is none. */
  function SlotOf(players: seq<ConnectedPlayer>, sender: int): nat {
    if Slotted(players, sender) then FirstSlot(players, sender) else 0
  }

  predicate Slotted(players: seq<ConnectedPlayer>, sender: int) {
    exists i :: 0 <= i < |players| && players[i].id == sender
  }

  function FirstSlot(players: seq<ConnectedPlayer>, sender: int): (i: nat)
    requires Slotted(players, sender)
    ensures i < |players| && players[i].id == sender
    ensures forall j :: 0 <= j < i ==> players[j].id != sender
  {
    if players[0].id == sender then 0
    else
      assert exists i :: 0 <= i < |players[1..]| && players[1..][i].id == sender by {
        var i :| 0 <= i < |players| && players[i].id == sender;
        assert players[1..][i - 1].id == sender;
      }
      1 + FirstSlot(players[1..], sender)
  }

  /** The effect of one record whose label is enabled. */
  function ReadRecord<M>(readers: Readers<M>, sender: byte, s: GameState<M>, tag: byte, data: seq<byte>): Outcome<M>
    requires s.players != []
  {
    if tag == CONNECTED_PLAYER_SNAP then
      var i := SlotOf(s.players, sender);
      Outcome(s.(players := s.players[i := SnapFields(s.players[i], data)]),
              Drop(data, SnapPopped(|data|)), |data| < SNAP_SIZE)
    else if CONNECTED_PLAYER_LEVEL <= tag <= INVENTORY then
      var r := readers.For(tag)(s.main, data);
      Outcome(s.(main := r.main), Drop(data, r.popped), r.thrown)
    else
      Outcome(s, data, false)
  }

  /** All of `readGameMessage`: the state it ends in, what is left of the queue, and whether an
      exception left it. */
  function ReadGame<M>(labels: map<byte, bool>, readers: Readers<M>, sender: byte,
                       s: GameState<M>, data: seq<byte>): (r: Outcome<M>)
    requires s.players != []
    ensures |r.state.players| == |s.players|
    decreases |data|
  {
    if |data| < 2 then Outcome(s, [], false)
    else if !LabelEnabled(labels, data[0]) then ReadGame(labels, readers, sender, s, Drop(data[2..], data[1]))
    else
      var r := ReadRecord(readers, sender, s, data[0], data[2..]);
      if r.thrown then r else ReadGame(labels, readers, sender, r.state, r.rest)
  }

  // ---------------------------------------------------------------- toggling labels

  datatype Record = Record(tag: byte, payload: seq<byte>)

  /** A record whose declared size is what its reader consumes, whatever follows it. */
  ghost predicate WellFormed<M(!new)>(readers: Readers<M>, r: Record) {
    && CONNECTED_PLAYER_SNAP <= r.tag <= INVENTORY
    && |r.payload| < 0x100
    && (r.tag == CONNECTED_PLAYER_SNAP ==> |r.payload| == SNAP_SIZE)
    && (r.tag != CONNECTED_PLAYER_SNAP ==>
          forall m: M, rest: seq<byte> ::
            readers.For(r.tag)(m, r.payload + rest)
            == ReadResult(readers.For(r.tag)(m, r.payload).main, |r.payload|, false))
  }

  ghost predicate AllWellFormed<M(!new)>(readers: Readers<M>, rs: seq<Record>) {
    forall i :: 0 <= i < |rs| ==> WellFormed(readers, rs[i])
  }

  function RecordBytes(r: Record): seq<byte>
    requires |r.payload| < 0x100
  {
    [r.tag, |r.payload|] + r.payload
  }

  predicate Sized(rs: seq<Record>) {
    forall i :: 0 <= i < |rs| ==> |rs[i].payload| < 0x100
  }

  function Stream(rs: seq<Record>): seq<byte>
    requires Sized(rs)
  {
    if rs == [] then [] else RecordBytes(rs[0]) + Stream(rs[1..])
  }

  function KeepEnabled(labels: map<byte, bool>, rs: seq<Record>): seq<Record> {
    if rs == [] then []
    else (if LabelEnabled(labels, rs[0].tag) then [rs[0]] else []) + KeepEnabled(labels, rs[1..])
  }

  function ApplyRecord<M>(readers: Readers<M>, sender: byte, s: GameState<M>, r: Record): (t: GameState<M>)
    requires s.players != []
    ensures |t.players| == |s.players|
  {
    ReadRecord(readers, sender, s, r.tag, r.payload).state
  }

  /** Record by record, with no notion of a byte stream. */
  function ApplyAll<M>(readers: Readers<M>, sender: byte, s: GameState<M>, rs: seq<Record>): GameState<M>
    requires s.players != []
    decreases rs
  {
    if rs == [] then s else ApplyAll(readers, sender, ApplyRecord(readers, sender, s, rs[0]), rs[1..])
  }

  lemma SnapReadsItsBytes(p: ConnectedPlayer, payload: seq<byte>, rest: seq<byte>)
    requires |payload| == SNAP_SIZE
    ensures SnapFields(p, payload + rest) == SnapFields(p, payload)
  {
    var all := payload + rest;
    assert all[..SNAP_SIZE] == payload;
    assert forall a, b :: 0 <= a <= b <= SNAP_SIZE ==> all[a..b] == payload[a..b];
  }

  lemma ReadWellFormed<M(!new)>(readers: Readers<M>, sender: byte, s: GameState<M>, r: Record, rest: seq<byte>)
    requires s.players != [] && WellFormed(readers, r)
    ensures ReadRecord(readers, sender, s, r.tag, r.payload + rest)
         == Outcome(ApplyRecord(readers, sender, s, r), rest, false)
  {
    ConcatSplits(r.payload, rest);
    if r.tag == CONNECTED_PLAYER_SNAP {
      SnapReadsItsBytes(s.players[SlotOf(s.players, sender)], r.payload, rest);
    } else {
      assert r.payload + [] == r.payload;
    }
  }

  lemma ReadFirst<M(!new)>(labels: map<byte, bool>, readers: Readers<M>, sender: byte,
                           s: GameState<M>, r: Record, rest: seq<byte>)
    requires s.players != [] && WellFormed(readers, r)
    ensures ReadGame(labels, readers, sender, s, RecordBytes(r) + rest)
         == ReadGame(labels, readers, sender,
                     if LabelEnabled(labels, r.tag) then ApplyRecord(readers, sender, s, r) else s, rest)
  {
    var data := RecordBytes(r) + rest;
    ConcatAssociates([r.tag, |r.payload|], r.payload, rest);
    ConcatSplits([r.tag, |r.payload|], r.payload + rest);
    assert data[0] == r.tag && data[1] == |r.payload| && data[2..] == r.payload + rest;
    ConcatSplits(r.payload, rest);
    ReadWellFormed(readers, sender, s, r, rest);
  }

  lemma {:induction false} ReadStream<M(!new)>(labels: map<byte, bool>, readers: Readers<M>, sender: byte,
                                               s: GameState<M>, rs: seq<Record>)
    requires s.players != [] && AllWellFormed(readers, rs) && Sized(rs)
    ensures ReadGame(labels, readers, sender, s, Stream(rs))
         == Outcome(ApplyAll(readers, sender, s, KeepEnabled(labels, rs)), [], false)
    decreases rs
  {
    if rs == [] {
    } else {
      var r := rs[0];
      ReadFirst(labels, readers, sender, s, r, Stream(rs[1..]));
      var t := if LabelEnabled(labels, r.tag) then ApplyRecord(readers, sender, s, r) else s;
      ReadStream(labels, readers, sender, t, rs[1..]);
      var later := KeepEnabled(labels, rs[1..]);
      if LabelEnabled(labels, r.tag) {
        ConcatSplits([r], later);
      } else {
        assert [] + later == later;
      }
    }
  }

  lemma {:induction false} KeepEnabledAll(labels: map<byte, bool>, rs: seq<Record>)
    requires forall i :: 0 <= i < |rs| ==> LabelEnabled(labels, rs[i].tag)
    ensures KeepEnabled(labels, rs) == rs
  {
    if rs == [] {
    } else {
      KeepEnabledAll(labels, rs[1..]);
    }
  }

  lemma {:induction false} KeepEnabledSubset<M(!new)>(labels: map<byte, bool>, readers: Readers<M>, rs: seq<Record>)
    requires AllWellFormed(readers, rs)
    ensures AllWellFormed(readers, KeepEnabled(labels, rs))
  {
    if rs == [] {
    } else {
      KeepEnabledSubset(labels, readers, rs[1..]);
    }
  }

  /** Toggling labels is filtering: reading a stream with some labels disabled ends exactly as
      reading, with all labels enabled, the stream without those records. Both consume the whole
      queue and throw nothing. */
  lemma TogglingIsFiltering<M(!new)>(labels: map<byte, bool>, on: map<byte, bool>, readers: Readers<M>,
                               sender: byte, s: GameState<M>, rs: seq<Record>)
    requires s.players != [] && AllWellFormed(readers, rs) && Sized(rs)
    requires forall tag: byte :: CONNECTED_PLAYER_SNAP <= tag <= INVENTORY ==> LabelEnabled(on, tag)
    ensures Sized(KeepEnabled(labels, rs))
    ensures ReadGame(labels, readers, sender, s, Stream(rs))
         == ReadGame(on, readers, sender, s, Stream(KeepEnabled(labels, rs)))
    ensures ReadGame(labels, readers, sender, s, Stream(rs)).rest == []
    ensures !ReadGame(labels, readers, sender, s, Stream(rs)).thrown
  {
    var kept := KeepEnabled(labels, rs);
    KeepEnabledSubset(labels, readers, rs);
    forall i | 0 <= i < |kept|
      ensures LabelEnabled(on, kept[i].tag) && |kept[i].payload| < 0x100
    {
      assert WellFormed(readers, kept[i]);
    }
    KeepEnabledAll(on, kept);
    ReadStream(labels, readers, sender, s, rs);
    ReadStream(on, readers, sender, s, kept);
  }

  // ---------------------------------------------------------------- malformed streams

  /** A label without a size ends the message. */
  lemma LoneLabelEnds<M>(labels: map<byte, bool>, readers: Readers<M>, sender: byte, s: GameState<M>, tag: byte)
    requires s.players != []
    ensures ReadGame(labels, readers, sender, s, [tag]) == Outcome(s, [], false)
  {
  }

  /** Of a record with an unknown label only label and size are dropped: its payload is read on as
      records. Of one with a disabled label as many bytes are dropped as it declares, or all there are. */
  lemma UnreadRecord<M>(labels: map<byte, bool>, readers: Readers<M>, sender: byte, s: GameState<M>,
                        tag: byte, size: byte, body: seq<byte>)
    requires s.players != []
    requires (tag in labels && !labels[tag]) || tag == 0 || tag > 4
    ensures ReadGame(labels, readers, sender, s, [tag, size] + body)
         == ReadGame(labels, readers, sender, s,
                     if tag in labels && !labels[tag] then body[if size <= |body| then size else |body|..] else body)
  {
    var data := [tag, size] + body;
    assert data[0] == tag && data[1] == size && data[2..] == body;
  }

  /** A snapshot record with fewer than 30 bytes left throws, whatever size it declares, after the
      fields that are whole were stored and popped. */
  lemma ShortSnapshotThrows<M>(labels: map<byte, bool>, readers: Readers<M>, sender: byte, s: GameState<M>,
                               size: byte, body: seq<byte>)
    requires s.players != [] && |body| < SNAP_SIZE && LabelEnabled(labels, CONNECTED_PLAYER_SNAP)
    ensures var i := SlotOf(s.players, sender);
            ReadGame(labels, readers, sender, s, [CONNECTED_PLAYER_SNAP, size] + body)
            == Outcome(s.(players := s.players[i := SnapFields(s.players[i], body)]), body[SnapPopped(|body|)..], true)
  {
    var data := [CONNECTED_PLAYER_SNAP, size] + body;
    assert data[0] == CONNECTED_PLAYER_SNAP && data[2..] == body;
    PoppedIsWholeFields(|body|);
  }

  /** A record for the main player goes to the reader of its label, which takes what it takes; what it
      has done stays also if it throws. */
  lemma MainRecordRead<M>(labels: map<byte, bool>, readers: Readers<M>, sender: byte, s: GameState<M>,
                          tag: byte, size: byte, body: seq<byte>)
    requires s.players != [] && 2 <= tag <= 4 && LabelEnabled(labels, tag)
    ensures var r := if tag == 2 then readers.level(s.main, body)
                     else if tag == 3 then readers.health(s.main, body) else readers.inventory(s.main, body);
            var t, rest := GameState(s.players, r.main), if r.popped <= |body| then body[r.popped..] else [];
            ReadGame(labels, readers, sender, s, [tag, size] + body)
            == if r.thrown then Outcome(t, rest, true) else ReadGame(labels, readers, sender, t, rest)
  {
    var data := [tag, size] + body;
    assert data[0] == tag && data[1] == size && data[2..] == body;
    var r := readers.For(tag)(s.main, body);
    assert Drop(body, r.popped) == if r.popped <= |body| then body[r.popped..] else [];
  }

  // ---------------------------------------------------------------- many messages

  /** Streams from several senders, one record after the other. */
  function ApplyStreams<M>(labels: map<byte, bool>, readers: Readers<M>, s: GameState<M>,
                           senders: seq<byte>, streams: seq<seq<Record>>): (t: GameState<M>)
    requires s.players != [] && |senders| == |streams|
    ensures |t.players| == |s.players|
    decreases streams
  {
    if streams == [] then s
    else
      ApplyAllKeepsSlots(readers, senders[0], s, KeepEnabled(labels, streams[0]));
      var t := ApplyAll(readers, senders[0], s, KeepEnabled(labels, streams[0]));
      ApplyStreams(labels, readers, t, senders[1..], streams[1..])
  }

  lemma {:induction false} ApplyAllKeepsSlots<M>(readers: Readers<M>, sender: byte, s: GameState<M>, rs: seq<Record>)
    requires s.players != []
    ensures |ApplyAll(readers, sender, s, rs).players| == |s.players|
    decreases rs
  {
    if rs == [] {
    } else {
      ApplyAllKeepsSlots(readers, sender, ApplyRecord(readers, sender, s, rs[0]), rs[1..]);
    }
  }

  /** The messages are well-formed record streams. */
  ghost predicate AreStreams<M(!new)>(readers: Readers<M>, messages: seq<seq<byte>>, streams: seq<seq<Record>>) {
    && |messages| == |streams|
    && forall i :: 0 <= i < |streams| ==>
         AllWellFormed(readers, streams[i]) && Sized(streams[i]) && messages[i] == Stream(streams[i])
  }

  // ---------------------------------------------------------------- slots

  function AssignSlots(players: seq<ConnectedPlayer>, ids: seq<byte>): (r: seq<ConnectedPlayer>)
    ensures |r| == |players|
  {
    seq(|players|, i requires 0 <= i < |players| => players[i].(id := if i < |ids| then ids[i] else -1))
  }

  /** Slots get new ids; the data of the last snapshot stays where it is. */
  lemma SlotsKeepData(players: seq<ConnectedPlayer>, ids: seq<byte>, i: nat)
    requires i < |players|
    ensures var p, q := players[i], AssignSlots(players, ids)[i];
            && q.id == (if i < |ids| then ids[i] else -1)
            && q.hostLevel == p.hostLevel && q.animation == p.animation && q.animFrame == p.animFrame
            && q.lastAnimFrame == p.lastAnimFrame && q.positionX == p.positionX && q.positionY == p.positionY
            && q.positionZ == p.positionZ && q.rotationY == p.rotationY && q.weapon == p.weapon
  {
  }

  function Below(ids: set<byte>, x: int): set<byte> {
    set y | y in ids && y < x
  }

  lemma BelowLargest(ids: set<byte>)
    requires ids != {}
    ensures Below(ids, Largest(ids)) == ids - {Largest(ids)}
  {
  }

  lemma BelowOther(ids: set<byte>, y: byte)
    requires ids != {} && y in ids - {Largest(ids)}
    ensures Below(ids, y) == Below(ids - {Largest(ids)}, y)
  {
  }

  lemma SortedInit(ids: set<byte>, i: nat)
    requires ids != {} && i < |SortedSeq(ids)|
    ensures var init := SortedSeq(ids - {Largest(ids)});
            |init| == |ids| - 1 && SortedSeq(ids)[i] == if i < |init| then init[i] else Largest(ids)
  {
    SortedSeqSorted(ids - {Largest(ids)});
  }

  /** An id's place in the sorted list is the number of smaller ids. */
  lemma {:induction false} RankInOrder(ids: set<byte>, i: nat)
    requires i < |SortedSeq(ids)|
    ensures |Below(ids, SortedSeq(ids)[i])| == i
  {
    SortedSeqSorted(ids);
    if ids == {} {
    } else {
      var init := ids - {Largest(ids)};
      SortedInit(ids, i);
      if i < |SortedSeq(init)| {
        RankInOrder(init, i);
        SortedSeqSorted(init);
        assert SortedSeq(init)[i] in SortedSeq(init);
        BelowOther(ids, SortedSeq(init)[i]);
      } else {
        BelowLargest(ids);
      }
    }
  }

  lemma PlaceOf(ids: set<byte>, id: byte)
    requires id in ids
    ensures var r := |Below(ids, id)|; r < |SortedSeq(ids)| && SortedSeq(ids)[r] == id
  {
    SortedSeqSorted(ids);
    var s := SortedSeq(ids);
    assert id in s;
    var i: nat :| i < |s| && s[i] == id;
    RankInOrder(ids, i);
  }

  lemma SlotOfMember(slots: seq<ConnectedPlayer>, ids: set<byte>, id: byte)
    requires |slots| == MAX_PLAYERS
    requires forall i :: 0 <= i < MAX_PLAYERS ==> slots[i].id == if i < |SortedSeq(ids)| then SortedSeq(ids)[i] else -1
    ensures Slotted(slots, id) <==> id in ids && |Below(ids, id)| < MAX_PLAYERS
    ensures Slotted(slots, id) ==> FirstSlot(slots, id) == |Below(ids, id)|
  {
    SortedSeqSorted(ids);
    if id in ids {
      PlaceOf(ids, id);
      var r := |Below(ids, id)|;
      if r < MAX_PLAYERS {
        assert slots[r].id == id;
      }
    }
    if Slotted(slots, id) {
      var i := FirstSlot(slots, id);
      assert SortedSeq(ids)[i] in SortedSeq(ids);
      RankInOrder(ids, i);
    }
  }

  /** After a client list the slots hold the smallest ids in ascending order and then -1: a
      member's slot number is the number of members with a smaller id, and a member has a slot if
      and only if that number is below seven. No id other than -1 is repeated. */
  lemma SlotsHoldSmallestIds<T>(players: seq<ConnectedPlayer>, members: map<byte, T>)
    requires |players| == MAX_PLAYERS
    ensures var slots := AssignSlots(players, SortedIds(members));
            && (forall i :: 0 <= i < MAX_PLAYERS ==> (slots[i].id == -1 <==> i >= |members|))
            && (forall i, j :: 0 <= i < j < MAX_PLAYERS && slots[j].id != -1 ==> slots[i].id < slots[j].id)
            && (forall id: byte :: Slotted(slots, id) <==> id in members && |Below(members.Keys, id)| < MAX_PLAYERS)
            && (forall id: byte :: Slotted(slots, id) ==> FirstSlot(slots, id) == |Below(members.Keys, id)|)
  {
    var slots := AssignSlots(players, SortedIds(members));
    SortedSeqSorted(members.Keys);
    assert |members.Keys| == |members|;
    forall id: byte
      ensures Slotted(slots, id) <==> id in members && |Below(members.Keys, id)| < MAX_PLAYERS
      ensures Slotted(slots, id) ==> FirstSlot(slots, id) == |Below(members.Keys, id)|
    {
      SlotOfMember(slots, members.Keys, id);
    }
  }

  /** So after the last client list a client has taken, from any state and among any messages, the slots
      its listener assigns hold the smallest ids of its membership. */
  lemma SlotsFollowLists(host: HostOrder, s: ClientState, ms: seq<BaseMessage>, players: seq<ConnectedPlayer>)
    requires |players| == MAX_PLAYERS && LastOf(ms, CLIENT_LIST_MESSAGE).Some?
    ensures var t := TakeAll(host, s, ms);
            && t.announced != []
            && var slots := AssignSlots(players, t.announced[|t.announced| - 1]);
               && (forall i :: 0 <= i < MAX_PLAYERS ==> (slots[i].id == -1 <==> i >= |t.members|))
               && (forall i, j :: 0 <= i < j < MAX_PLAYERS && slots[j].id != -1 ==> slots[i].id < slots[j].id)
               && (forall id: byte :: Slotted(slots, id) <==>
                     id in t.members && |Below(t.members.Keys, id)| < MAX_PLAYERS)
  {
    var t := TakeAll(host, s, ms);
    LastAnnouncement(host, s, ms);
    AnnouncementUnique(t.announced[|t.announced| - 1], t.members.Keys);
    SlotsHoldSmallestIds(players, t.members);
  }

  /** A snapshot record from a member that has a slot changes that slot's data and nothing else,
      and no two members write to the same slot. */
  lemma SnapshotsDoNotCollide<M(!new), T>(players: seq<ConnectedPlayer>, members: map<byte, T>, labels: map<byte, bool>,
                                    readers: Readers<M>, main: M, a: byte, b: byte, payload: seq<byte>)
    requires |players| == MAX_PLAYERS && |payload| == SNAP_SIZE && LabelEnabled(labels, CONNECTED_PLAYER_SNAP)
    requires Slotted(AssignSlots(players, SortedIds(members)), a)
    ensures var slots := AssignSlots(players, SortedIds(members));
            var i := FirstSlot(slots, a);
            && ReadGame(labels, readers, a, GameState(slots, main), RecordBytes(Record(CONNECTED_PLAYER_SNAP, payload)))
               == Outcome(GameState(slots[i := SnapFields(slots[i], payload)], main), [], false)
            && SnapFields(slots[i], payload).id == a
            && (a != b && Slotted(slots, b) ==> FirstSlot(slots, b) != i)
  {
    var slots := AssignSlots(players, SortedIds(members));
    var r := Record(CONNECTED_PLAYER_SNAP, payload);
    ReadFirst(labels, readers, a, GameState(slots, main), r, []);
    assert RecordBytes(r) + [] == RecordBytes(r);
  }

  // ---------------------------------------------------------------- two senders

  /** A snapshot record holds its fields and nothing else. */
  lemma FieldsDetermineSnapshot(p: ConnectedPlayer, payload: seq<byte>)
    requires |payload| == SNAP_SIZE
    ensures var q := SnapFields(p, payload);
            payload == [q.hostLevel] + q.animation + q.animFrame + q.lastAnimFrame
                       + q.positionX + q.positionY + q.positionZ + q.rotationY + [q.weapon]
  {
  }

  lemma SlotAfterUpdate(players: seq<ConnectedPlayer>, i: nat, p: ConnectedPlayer, sender: byte)
    requires i < |players| && p.id == players[i].id
    ensures SlotOf(players[i := p], sender) == SlotOf(players, sender)
  {
    var updated := players[i := p];
    assert forall j :: 0 <= j < |players| ==> updated[j].id == players[j].id;
    if Slotted(players, sender) {
      assert updated[FirstSlot(players, sender)].id == sender;
      var j, k := FirstSlot(players, sender), FirstSlot(updated, sender);
      assert players[k].id == sender;
    }
  }

  /** Two senders write to the same slot exactly when each has slot 0 or has none. */
  lemma SharedSlotExactly(players: seq<ConnectedPlayer>, a: byte, b: byte)
    requires a != b
    ensures SlotOf(players, a) == SlotOf(players, b)
       <==> (Slotted(players, a) ==> FirstSlot(players, a) == 0) && (Slotted(players, b) ==> FirstSlot(players, b) == 0)
  {
  }

  /** The slots after one snapshot record. */
  function ApplySnap(players: seq<ConnectedPlayer>, sender: byte, payload: seq<byte>): (r: seq<ConnectedPlayer>)
    requires players != []
    ensures |r| == |players|
  {
    var i := SlotOf(players, sender);
    players[i := SnapFields(players[i], payload)]
  }

  /** The order of two senders' snapshots does not matter if and only if the two write to different
      slots or say the same: senders with slots never disturb each other. */
  lemma SnapshotsCommuteExactly<M>(readers: Readers<M>, s: GameState<M>, a: byte, b: byte, p: seq<byte>, q: seq<byte>)
    requires s.players != [] && |p| == SNAP_SIZE && |q| == SNAP_SIZE
    ensures var ra, rb := Record(CONNECTED_PLAYER_SNAP, p), Record(CONNECTED_PLAYER_SNAP, q);
            ApplyRecord(readers, b, ApplyRecord(readers, a, s, ra), rb)
            == ApplyRecord(readers, a, ApplyRecord(readers, b, s, rb), ra)
            <==> SlotOf(s.players, a) != SlotOf(s.players, b) || p == q
  {
    var i, j := SlotOf(s.players, a), SlotOf(s.players, b);
    var x, y := SnapFields(s.players[i], p), SnapFields(s.players[j], q);
    SlotAfterUpdate(s.players, i, x, b);
    SlotAfterUpdate(s.players, j, y, a);
    var ab := ApplySnap(ApplySnap(s.players, a, p), b, q);
    var ba := ApplySnap(ApplySnap(s.players, b, q), a, p);
    if i != j {
      assert ab == ba;
    } else {
      assert ab[i] == SnapFields(x, q) && ba[i] == SnapFields(y, p);
      FieldsDetermineSnapshot(x, q);
      FieldsDetermineSnapshot(y, p);
    }
  }
}
