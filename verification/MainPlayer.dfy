/** The main player: its three readers and its writers, loop by loop, and what they write. */
module MainPlayerSide {
  import opened Bytes
  import opened GameData
  import opened PlayerRecords
  import opened Wire

  // ---------------------------------------------------------------- which enemies are written

  /** What is to be said about an enemy whose health in the game is not what the player last knew. */
  function ChangeOf(env: Env, e: Enemy, memory: map<u32, Float>): (r: Option<seq<byte>>)
    ensures r.Some? ==> |r.value| == CHANGE_SIZE
  {
    var now := FloatAt(memory, HealthAddress(e.address));
    if env.differ(e.health, now) then Some(env.guidAt(e.address) + env.minus(now, e.health)) else None
  }

  function Changed(env: Env, es: seq<Enemy>, memory: map<u32, Float>): (r: seq<seq<byte>>)
    ensures AllSized(r, CHANGE_SIZE)
  {
    if es == [] then []
    else
      var c := ChangeOf(env, es[|es| - 1], memory);
      Changed(env, es[..|es| - 1], memory) + if c.Some? then [c.value] else []
  }

  /** The enemies after the first `n` were looked at: the health that was written counts as known. */
  function Known(env: Env, es: seq<Enemy>, memory: map<u32, Float>, n: nat): (r: seq<Enemy>)
    ensures |r| == |es|
  {
    seq(|es|, i requires 0 <= i < |es| =>
      if i < n && ChangeOf(env, es[i], memory).Some?
      then es[i].(health := FloatAt(memory, HealthAddress(es[i].address))) else es[i])
  }

  /** The enemy's health in the game, `now`, is not what the player last knew. */
  predicate IsHurt(env: Env, e: Enemy, memory: map<u32, Float>, now: Float) {
    HoldsFloat(memory, (e.address + 0x290) % 0x1_0000_0000, now) && env.differ(e.health, now)
  }

  /** Where the hurt enemies stand. */
  function HurtAt(env: Env, es: seq<Enemy>, memory: map<u32, Float>): seq<nat> {
    if es == [] then []
    else
      var i := |es| - 1;
      if ChangeOf(env, es[i], memory).Some? then HurtAt(env, es[..i], memory) + [i] else HurtAt(env, es[..i], memory)
  }

  lemma {:induction false} HurtAtExactly(env: Env, es: seq<Enemy>, memory: map<u32, Float>)
    ensures forall i: nat :: i in HurtAt(env, es, memory) <==>
              i < |es| && IsHurt(env, es[i], memory, FloatAt(memory, HealthAddress(es[i].address)))
    ensures forall k, l :: 0 <= k < l < |HurtAt(env, es, memory)| ==>
              HurtAt(env, es, memory)[k] < HurtAt(env, es, memory)[l]
  {
    if es == [] {
    } else {
      var init := es[..|es| - 1];
      HurtAtExactly(env, init, memory);
      forall k | 0 <= k < |HurtAt(env, init, memory)|
        ensures HurtAt(env, init, memory)[k] < |init|
      {
        assert HurtAt(env, init, memory)[k] in HurtAt(env, init, memory);
      }
    }
  }

  /** Exactly the hurt enemies are written, in the order of the list: GUID, and the difference. */
  lemma {:induction false} ChangedExactly(env: Env, es: seq<Enemy>, memory: map<u32, Float>, k: nat, now: Float)
    requires k < |HurtAt(env, es, memory)|
    requires HurtAt(env, es, memory)[k] < |es|
    requires HoldsFloat(memory, (es[HurtAt(env, es, memory)[k]].address + 0x290) % 0x1_0000_0000, now)
    ensures |Changed(env, es, memory)| == |HurtAt(env, es, memory)|
    ensures var e, c := es[HurtAt(env, es, memory)[k]], Changed(env, es, memory)[k];
            c[..8] == env.guidAt(e.address) && c[8..] == env.minus(now, e.health)
  {
    var init := es[..|es| - 1];
    ChangesCounted(env, es, memory);
    ChangesCounted(env, init, memory);
    HurtAtExactly(env, init, memory);
    if k < |HurtAt(env, init, memory)| {
      assert HurtAt(env, init, memory)[k] in HurtAt(env, init, memory);
      ChangedExactly(env, init, memory, k, now);
    }
  }

  lemma {:induction false} ChangesCounted(env: Env, es: seq<Enemy>, memory: map<u32, Float>)
    ensures |Changed(env, es, memory)| == |HurtAt(env, es, memory)|
  {
    if es == [] {
    } else {
      ChangesCounted(env, es[..|es| - 1], memory);
    }
  }

  /** Afterwards the health of a hurt enemy is known as it is; nothing else changes. */
  lemma KnownExactly(env: Env, es: seq<Enemy>, memory: map<u32, Float>, i: nat, now: Float)
    requires i < |es| && HoldsFloat(memory, (es[i].address + 0x290) % 0x1_0000_0000, now)
    ensures Known(env, es, memory, |es|)[i]
         == Enemy(es[i].address, if env.differ(es[i].health, now) then now else es[i].health)
  {
  }

  // ---------------------------------------------------------------- which items are written

  /** The indices the writing loop stops at. */
  predicate Visited(i: nat) {
    !(1 < i < 6) && !(7 < i < 20) && !(22 < i < 25) && !(25 < i < 28) && i != 46 && i != 50 && i != 51
  }

  /** The head of the loop's body. */
  function Jump(i: nat): nat {
    if 1 < i < 6 then 6
    else if 7 < i < 20 then 20
    else if 22 < i < 25 then 25
    else if 25 < i < 28 then 28
    else if i == 46 then 47
    else if i == 50 then 52
    else i
  }

  /** Item `i` has changed or, from 53 on, grown smaller; items 6 and 7 are passed over when they have
      grown smaller, 7 also when 25 has. */
  predicate Sends(env: Env, inventory: seq<Float>, memory: map<u32, Float>, i: byte)
    requires i < ITEMS <= |inventory|
  {
    var now := FloatAt(memory, ItemAddress(i));
    && (if i < 53 then env.differ(inventory[i], now) else env.greater(inventory[i], now))
    && !(i == 6 && env.greater(inventory[i], now))
    && !(i == 7 && (env.greater(inventory[25], FloatAt(memory, ItemAddress(25))) || env.greater(inventory[i], now)))
  }

  function ItemOf(env: Env, inventory: seq<Float>, memory: map<u32, Float>, i: byte): (r: Option<seq<byte>>)
    requires i < ITEMS <= |inventory|
    ensures r.Some? ==> |r.value| == ITEM_SIZE && r.value[0] == i
  {
    if Sends(env, inventory, memory, i) then Some([i] + env.minus(FloatAt(memory, ItemAddress(i)), inventory[i]))
    else None
  }

  /** What the loop has written of the first `n` items. */
  function SentItems(env: Env, inventory: seq<Float>, memory: map<u32, Float>, n: nat): (r: seq<seq<byte>>)
    requires n <= ITEMS <= |inventory|
    ensures AllSized(r, ITEM_SIZE)
  {
    if n == 0 then []
    else
      var sent, x := SentItems(env, inventory, memory, n - 1), ItemOf(env, inventory, memory, n - 1);
      if Visited(n - 1) && x.Some? then sent + [x.value] else sent
  }

  /** The inventory the loop leaves after the first `n` items: what was written counts as known. */
  function Refreshed(env: Env, inventory: seq<Float>, memory: map<u32, Float>, n: nat): (r: seq<Float>)
    requires n <= ITEMS <= |inventory|
    ensures |r| == |inventory|
  {
    seq(|inventory|, j requires 0 <= j < |inventory| =>
      if j < n && Visited(j) && Sends(env, inventory, memory, j) then FloatAt(memory, ItemAddress(j)) else inventory[j])
  }

  /** The items the loop looks at. */
  predicate LookedAt(i: int) {
    i in {0, 1, 6, 7, 20, 21, 22, 25} || 28 <= i <= 45 || 47 <= i <= 49 || 52 <= i <= 55
  }

  /** Item `i`, whose value in the game is `now`, is to be written: it has changed, or grown smaller from
      53 on; item 6 not if it has grown smaller, item 7 not if it or item 25 has. */
  predicate ToWrite(env: Env, inventory: seq<Float>, i: nat, now: Float, now25: Float)
    requires i < ITEMS <= |inventory|
  {
    && LookedAt(i)
    && (i < 53 ==> env.differ(inventory[i], now)) && (i >= 53 ==> env.greater(inventory[i], now))
    && (i in {6, 7} ==> !env.greater(inventory[i], now)) && (i == 7 ==> !env.greater(inventory[25], now25))
  }

  lemma ItemExactly(env: Env, inventory: seq<Float>, memory: map<u32, Float>, i: nat, now: Float, now25: Float)
    requires i < ITEMS <= |inventory|
    requires HoldsFloat(memory, 0x0075_BDB0 + 4 * i, now) && HoldsFloat(memory, 0x0075_BDB0 + 4 * 25, now25)
    ensures Visited(i) && ItemOf(env, inventory, memory, i).Some? <==> ToWrite(env, inventory, i, now, now25)
    ensures ItemOf(env, inventory, memory, i).Some? ==>
              var x := ItemOf(env, inventory, memory, i).value; x[0] == i && x[1..] == env.minus(now, inventory[i])
  {
    assert ItemAddress(i) == 0x0075_BDB0 + 4 * i && ItemAddress(25) == 0x0075_BDB0 + 4 * 25;
  }

  lemma SentStep(env: Env, inventory: seq<Float>, memory: map<u32, Float>, n: nat)
    requires n < ITEMS <= |inventory|
    ensures var before, sent := SentItems(env, inventory, memory, n), SentItems(env, inventory, memory, n + 1);
            && (forall k :: 0 <= k < |before| ==> k < |sent| && sent[k] == before[k])
            && (|sent| == |before| || (|sent| == |before| + 1 && sent[|before|][0] == n))
  {
  }

  lemma {:induction false} SentAscend(env: Env, inventory: seq<Float>, memory: map<u32, Float>, n: nat)
    requires n <= ITEMS <= |inventory|
    ensures var sent := SentItems(env, inventory, memory, n);
            && (forall k :: 0 <= k < |sent| ==> sent[k][0] < n)
            && (forall k, l :: 0 <= k < l < |sent| ==> sent[k][0] < sent[l][0])
  {
    if n == 0 {
    } else {
      SentAscend(env, inventory, memory, n - 1);
      SentStep(env, inventory, memory, n - 1);
    }
  }

  /** Item `i` is among the first `n` written. */
  predicate IsSent(env: Env, inventory: seq<Float>, memory: map<u32, Float>, n: nat, i: nat)
    requires n <= ITEMS <= |inventory|
  {
    var sent := SentItems(env, inventory, memory, n);
    exists k :: 0 <= k < |sent| && sent[k][0] == i
  }

  lemma IsSentStep(env: Env, inventory: seq<Float>, memory: map<u32, Float>, n: nat, i: nat)
    requires n < ITEMS <= |inventory| && i < n
    ensures IsSent(env, inventory, memory, n + 1, i) <==> IsSent(env, inventory, memory, n, i)
  {
    var before, sent := SentItems(env, inventory, memory, n), SentItems(env, inventory, memory, n + 1);
    SentStep(env, inventory, memory, n);
    if k :| 0 <= k < |before| && before[k][0] == i {
      assert sent[k][0] == i;
    }
    if k :| 0 <= k < |sent| && sent[k][0] == i {
      assert before[k][0] == i;
    }
  }

  /** Exactly those items are written, in the order of their indices, each with its difference. */
  lemma {:induction false} SentExactly(env: Env, inventory: seq<Float>, memory: map<u32, Float>, n: nat, i: nat,
                                       now: Float, now25: Float)
    requires n <= ITEMS <= |inventory| && i < n
    requires HoldsFloat(memory, 0x0075_BDB0 + 4 * i, now) && HoldsFloat(memory, 0x0075_BDB0 + 4 * 25, now25)
    ensures IsSent(env, inventory, memory, n, i) <==> ToWrite(env, inventory, i, now, now25)
    ensures var sent := SentItems(env, inventory, memory, n);
            forall k :: 0 <= k < |sent| && sent[k][0] == i ==> sent[k][1..] == env.minus(now, inventory[i])
  {
    SentAscend(env, inventory, memory, n - 1);
    SentStep(env, inventory, memory, n - 1);
    if i == n - 1 {
      ItemExactly(env, inventory, memory, i, now, now25);
      var before, sent := SentItems(env, inventory, memory, n - 1), SentItems(env, inventory, memory, n);
      if ToWrite(env, inventory, i, now, now25) {
        assert sent[|before|][0] == i;
      }
    } else {
      SentExactly(env, inventory, memory, n - 1, i, now, now25);
      IsSentStep(env, inventory, memory, n - 1, i);
    }
  }

  /** Afterwards the values of the written items are known as they are; nothing else changes. */
  lemma RefreshedExactly(env: Env, inventory: seq<Float>, memory: map<u32, Float>, i: nat, now: Float, now25: Float)
    requires i < |inventory| && ITEMS <= |inventory| && HoldsFloat(memory, 0x0075_BDB0 + 4 * 25, now25)
    requires i < ITEMS ==> HoldsFloat(memory, 0x0075_BDB0 + 4 * i, now)
    ensures Refreshed(env, inventory, memory, ITEMS)[i]
         == if i < ITEMS && ToWrite(env, inventory, i, now, now25) then now else inventory[i]
  {
    if i < ITEMS {
      ItemExactly(env, inventory, memory, i, now, now25);
    }
  }

  /** At most 44 items are written, all of them listed, so that neither count nor size wraps. */
  lemma {:induction false} FewItems(env: Env, inventory: seq<Float>, memory: map<u32, Float>, n: nat)
    requires n <= ITEMS <= |inventory|
    ensures |SentItems(env, inventory, memory, n)| <= if n <= 8 then n else if n <= 20 then 8 else n - 12
    ensures AllListed(SentItems(env, inventory, memory, n))
  {
    if n == 0 {
    } else {
      FewItems(env, inventory, memory, n - 1);
    }
  }

  lemma {:induction false} JumpSendsNothing(env: Env, inventory: seq<Float>, memory: map<u32, Float>, i: nat, j: nat)
    requires i <= j <= ITEMS <= |inventory| && forall k :: i <= k < j ==> !Visited(k)
    ensures SentItems(env, inventory, memory, j) == SentItems(env, inventory, memory, i)
    ensures Refreshed(env, inventory, memory, j) == Refreshed(env, inventory, memory, i)
    decreases j
  {
    if i == j {
    } else {
      JumpSendsNothing(env, inventory, memory, i, j - 1);
    }
  }

  lemma JumpLands(i: nat)
    requires i < ITEMS && i != 51
    ensures i <= Jump(i) < ITEMS && Visited(Jump(i)) && forall k :: i <= k < Jump(i) ==> !Visited(k)
  {
  }

  /** At its turn an item is judged by the inventory the loop started with: the one other item that
      matters, 25, comes later. */
  lemma JudgedAsBefore(env: Env, was: seq<Float>, memory: map<u32, Float>, i: byte)
    requires i < ITEMS <= |was|
    ensures var now := Refreshed(env, was, memory, i);
            && ItemOf(env, now, memory, i) == ItemOf(env, was, memory, i)
            && (Visited(i) ==>
                  Refreshed(env, was, memory, i + 1) == now[i :=
                    if ItemOf(env, now, memory, i).Some? then FloatAt(memory, ItemAddress(i)) else now[i]])
  {
  }

  // ---------------------------------------------------------------- all that is written

  function SnapMessage(pose: ConnectedPlayer): BaseMessage {
    BaseMessage(SNAPSHOT_MESSAGE, 0, [CONNECTED_PLAYER_SNAP, SNAP_SIZE] + SnapPayload(pose))
  }

  /** An event about nothing is written without payload. */
  function EventMessage(tag: byte, cells: seq<seq<byte>>): BaseMessage {
    if cells == [] then BaseMessage(0, 0, []) else BaseMessage(EVENT_MESSAGE, 0, Written(tag, cells))
  }

  function Output(env: Env, pose: ConnectedPlayer, p: Player): seq<BaseMessage>
    requires |p.inventory| >= ITEMS
  {
    var changes, items := Changed(env, p.enemies, p.memory), SentItems(env, p.inventory, p.memory, ITEMS);
    [SnapMessage(pose)]
    + (if changes == [] then [] else [EventMessage(ENEMIES_HEALTH, changes)])
    + (if items == [] then [] else [EventMessage(INVENTORY, items)])
  }

  /** A write is one snapshot message, then an event about enemies if there is something to say about
      them, and one about items likewise. */
  lemma OutputMessages(env: Env, pose: ConnectedPlayer, p: Player)
    requires |p.inventory| >= ITEMS
    ensures var ms := Output(env, pose, p);
            var hurt, items := |Changed(env, p.enemies, p.memory)|, |SentItems(env, p.inventory, p.memory, ITEMS)|;
            && |ms| == 1 + (if hurt > 0 then 1 else 0) + (if items > 0 then 1 else 0)
            && ms[0].messageType == 3 && |ms[0].message| >= 2 && ms[0].message[0] == 1
            && (forall i :: 1 <= i < |ms| ==> ms[i].messageType == 2 && |ms[i].message| >= 2)
            && (hurt > 0 ==> ms[1].message[0] == 3) && (items > 0 ==> ms[|ms| - 1].message[0] == 4)
  {
  }

  /** The record a message claims to be. */
  function RecordOf(m: BaseMessage): Record {
    if |m.message| < 2 then Record(0, []) else Record(m.message[0], m.message[2..])
  }

  lemma RecordOfWritten(tag: byte, size: byte, payload: seq<byte>, t: byte, id: byte)
    ensures RecordOf(BaseMessage(t, id, [tag, size] + payload)) == Record(tag, payload)
  {
  }

  lemma SnapIsRecord(receiver: Env, pose: ConnectedPlayer)
    requires FieldSizes(pose)
    ensures IsRecord(receiver, SnapMessage(pose).message, RecordOf(SnapMessage(pose)))
  {
    PoseReadBack(pose, pose);
    RecordOfWritten(CONNECTED_PLAYER_SNAP, SNAP_SIZE, SnapPayload(pose), SNAPSHOT_MESSAGE, 0);
  }

  lemma ChangesAreRecordExactly(receiver: Env, changes: seq<seq<byte>>)
    requires AllSized(changes, CHANGE_SIZE) && changes != []
    ensures var m := EventMessage(ENEMIES_HEALTH, changes);
            IsRecord(receiver, m.message, RecordOf(m)) <==> |changes| <= 20
  {
    HealthRecordExactly(receiver, changes);
    RecordOfWritten(ENEMIES_HEALTH, (4 + |Flat(changes)|) % 0x100, Payload(changes), EVENT_MESSAGE, 0);
  }

  lemma ItemsAreRecord(env: Env, receiver: Env, inventory: seq<Float>, memory: map<u32, Float>, n: nat)
    requires n <= ITEMS <= |inventory| && SentItems(env, inventory, memory, n) != []
    ensures var m := EventMessage(INVENTORY, SentItems(env, inventory, memory, n));
            IsRecord(receiver, m.message, RecordOf(m))
  {
    var items := SentItems(env, inventory, memory, n);
    FewItems(env, inventory, memory, n);
    ItemsRecord(receiver, items);
    RecordOfWritten(INVENTORY, (4 + |Flat(items)|) % 0x100, Payload(items), EVENT_MESSAGE, 0);
  }

  /** Every message the main player writes is one record that a receiver reads whole or skips whole,
      whatever it is doing, if and only if at most twenty enemies were hurt since the last write. */
  lemma OutputIsRecordsExactly(env: Env, receiver: Env, pose: ConnectedPlayer, p: Player)
    requires |p.inventory| >= ITEMS && FieldSizes(pose)
    ensures |Changed(env, p.enemies, p.memory)| <= 20
       <==> forall i :: 0 <= i < |Output(env, pose, p)| ==>
              IsRecord(receiver, Output(env, pose, p)[i].message, RecordOf(Output(env, pose, p)[i]))
  {
    var n := ITEMS;
    var changes := Changed(env, p.enemies, p.memory);
    SnapIsRecord(receiver, pose);
    if changes != [] {
      ChangesAreRecordExactly(receiver, changes);
      assert Output(env, pose, p)[1] == EventMessage(ENEMIES_HEALTH, changes);
    }
    if SentItems(env, p.inventory, p.memory, n) != [] {
      ItemsAreRecord(env, receiver, p.inventory, p.memory, n);
    }
  }

  // ---------------------------------------------------------------- steps of the loops

  lemma KnownStep(env: Env, es: seq<Enemy>, memory: map<u32, Float>, i: nat)
    requires i < |es|
    ensures var e := Known(env, es, memory, i)[i];
            && e == es[i]
            && Known(env, es, memory, i + 1) == Known(env, es, memory, i)[i :=
                 if ChangeOf(env, e, memory).Some?
                 then e.(health := FloatAt(memory, HealthAddress(e.address))) else e]
  {
  }

  lemma ChangedStep(env: Env, es: seq<Enemy>, memory: map<u32, Float>, i: nat)
    requires i < |es|
    ensures var c := ChangeOf(env, es[i], memory);
            Changed(env, es[..i + 1], memory) == if c.Some? then Changed(env, es[..i], memory) + [c.value]
                                                 else Changed(env, es[..i], memory)
  {
    assert es[..i + 1][..i] == es[..i];
    assert Changed(env, es[..i], memory) + [] == Changed(env, es[..i], memory);
  }

  /** Count, size byte and data while a record is being put together. */
  function Draft(cells: seq<seq<byte>>): (nat, byte, seq<byte>) {
    (|cells|, (4 + |Flat(cells)|) % 0x100, Flat(cells))
  }

  /** One more cell: the count, the size byte and the data grow. */
  method Push(draft: (nat, byte, seq<byte>), c: seq<byte>, ghost cells: seq<seq<byte>>)
    returns (longer: (nat, byte, seq<byte>))
    requires draft == Draft(cells)
    ensures longer == Draft(cells + [c])
  {
    FlatPush(cells, c);
    longer := (draft.0 + 1, (draft.1 + |c|) % 0x100, draft.2 + c);
  }

  /** The end of both event writers: the count is set in the lowest byte of its field. */
  method FinishEvent(tag: byte, draft: (nat, byte, seq<byte>), ghost cells: seq<seq<byte>>)
    returns (m: BaseMessage)
    requires draft == Draft(cells)
    ensures m == EventMessage(tag, cells)
  {
    if draft.0 > 0 {
      m := BaseMessage(EVENT_MESSAGE, 0, [tag, draft.1] + ([draft.0 % 0x100, 0, 0, 0] + draft.2));
    } else {
      m := BaseMessage(0, 0, []);
    }
  }

  /** What is left of a queue, and the cells read so far. */
  function Left(r: Cells, before: seq<seq<byte>>, data: seq<byte>): (seq<seq<byte>>, seq<byte>, bool)
    requires r.popped <= |data|
  {
    (before + r.list, data[r.popped..], r.thrown)
  }

  lemma SliceTwice(data: seq<byte>, a: nat, b: nat)
    requires a + b <= |data|
    ensures data[a..][b..] == data[a + b..]
  {
  }

  lemma ReadCellsStep(unit: nat, head: nat, n: nat, before: seq<seq<byte>>, data: seq<byte>)
    requires n > 0 && head <= unit
    ensures Left(ReadCells(unit, head, n, data), before, data)
         == if |data| < unit then (before, data[if |data| < head then 0 else head..], true)
            else Left(ReadCells(unit, head, n - 1, data[unit..]), before + [data[..unit]], data[unit..])
  {
    if |data| < unit {
      assert before + [] == before;
    } else {
      var r := ReadCells(unit, head, n - 1, data[unit..]);
      SliceTwice(data, unit, r.popped);
      ConcatAssociates(before, [data[..unit]], r.list);
    }
  }

  /** Two fields; where the second is missing, the first is popped. */
  method ReadCell(unit: nat, head: nat, data: seq<byte>) returns (cell: Option<seq<byte>>, rest: seq<byte>)
    requires head <= unit
    ensures if |data| < unit then cell == None && rest == data[if |data| < head then 0 else head..]
            else cell == Some(data[..unit]) && rest == data[unit..]
  {
    var first, second;
    cell := None;
    first, rest := ConvertNext(data, 0, data, head);
    if first == None { return; }
    second, rest := ConvertNext(data, head, rest, unit - head);
    if second == None { return; }
    assert data[..head] + data[head..unit] == data[..unit];
    cell := Some(first.value + second.value);
  }

  /** The reading loop over items, which keeps them in a queue. */
  method ReadItemList(n: nat, data: seq<byte>) returns (list: seq<seq<byte>>, rest: seq<byte>, thrown: bool)
    ensures (list, rest, thrown) == Left(ReadCells(ITEM_SIZE, 1, n, data), [], data)
  {
    list, rest := [], data;
    for i := 0 to n
      invariant Left(ReadCells(ITEM_SIZE, 1, n - i, rest), list, rest)
             == Left(ReadCells(ITEM_SIZE, 1, n, data), [], data)
    {
      ReadCellsStep(ITEM_SIZE, 1, n - i, list, rest);
      var x;
      x, rest := ReadCell(ITEM_SIZE, 1, rest);
      if x == None {
        return list, rest, true;
      }
      list := list + [x.value];
    }
    assert list + [] == list;
    thrown := false;
  }

  // ---------------------------------------------------------------- the object

  class MainPlayer {
    const env: Env
    var level: u32
    var enemies: seq<Enemy>
    var inventory: seq<Float>
    /** The process memory of the game, as it is while a reader or a writer runs. */
    var memory: map<u32, Float>

    function View(): Player
      reads this
    {
      Player(level, enemies, inventory, memory)
    }

    constructor (env: Env, level: u32)
      ensures this.env == env && View() == Player(level, [], [], map[])
    {
      this.env, this.level, enemies, inventory, memory := env, level, [], [], map[];
    }

    /** The body of the health-reading loop, after a change was read. */
    method ApplyChange(change: seq<byte>)
      requires |change| == CHANGE_SIZE
      modifies this`enemies, this`memory
      ensures View() == Hurt(env, old(View()), change)
    {
      var guid: Guid, amount: Float := change[..8], change[8..];
      if guid == NO_GUID {
        return;
      }
      var found := env.objectOf(guid);
      if found != 0 {
        var health := FloatAt(memory, HealthAddress(found));
        for i := 0 to |enemies|
          invariant View() == old(View())
          invariant forall j :: 0 <= j < i ==> env.guidAt(enemies[j].address) != guid
        {
          if env.guidAt(enemies[i].address) == guid {
            assert FirstEnemy(env, enemies, guid) == i;
            var sum := env.plus(health, amount);
            memory := memory[HealthAddress(enemies[i].address) := sum];
            enemies := enemies[i := enemies[i].(health := sum)];
            break;
          }
        }
      }
    }

    /** The health-reading loop: each change is applied before the next is read. */
    method ReadChangeList(n: nat, data: seq<byte>) returns (rest: seq<byte>, thrown: bool)
      modifies this`enemies, this`memory
      ensures var r := ReadCells(CHANGE_SIZE, GUID_SIZE, n, data);
              View() == HurtAll(env, old(View()), r.list) && rest == data[r.popped..] && thrown == r.thrown
    {
      rest := data;
      ghost var done, all := [], ReadCells(CHANGE_SIZE, GUID_SIZE, n, data);
      assert done + all.list == all.list;
      for i := 0 to n
        invariant AllSized(done, CHANGE_SIZE) && View() == HurtAll(env, old(View()), done)
        invariant Left(ReadCells(CHANGE_SIZE, GUID_SIZE, n - i, rest), done, rest)
               == (all.list, data[all.popped..], all.thrown)
      {
        ReadCellsStep(CHANGE_SIZE, GUID_SIZE, n - i, done, rest);
        var c;
        c, rest := ReadCell(CHANGE_SIZE, GUID_SIZE, rest);
        if c == None {
          return rest, true;
        }
        ApplyChange(c.value);
        done := done + [c.value];
        assert done[..|done| - 1] + [c.value] == done;
      }
      assert done + [] == done;
      thrown := false;
    }

    method ReadProcessEnemiesHealth(gameData: seq<byte>) returns (rest: seq<byte>, thrown: bool)
      modifies this`enemies, this`memory
      ensures var r := ReadHealth(env, old(View()), gameData);
              View() == r.main && rest == gameData[r.popped..] && thrown == r.thrown
    {
      var n;
      n, rest := ConvertQueueToType(gameData, 4);
      if n == None {
        return rest, true;
      }
      SliceTwice(gameData, 4, ReadCells(CHANGE_SIZE, GUID_SIZE, Count(gameData), gameData[4..]).popped);
      rest, thrown := ReadChangeList(Load32(LittleEndian, n.value), rest);
    }

    /** The applying loop over the queue of items. */
    method ApplyItems(list: seq<seq<byte>>) returns (thrown: bool)
      requires AllSized(list, ITEM_SIZE)
      modifies this`inventory, this`memory
      ensures (View(), thrown) == GainAll(env, old(View()), list)
    {
      for i := 0 to |list|
        invariant GainAll(env, View(), list[i..]) == GainAll(env, old(View()), list)
      {
        var x := list[i];
        assert list[i..][0] == x && list[i..][1..] == list[i + 1..];
        if x[0] >= |inventory| {
          return true;
        }
        var sum := env.plus(inventory[x[0]], x[1..]);
        var value := if env.negative(sum) then ZERO else sum;
        inventory := inventory[x[0] := value];
        memory := memory[ItemAddress(x[0]) := value];
      }
      thrown := false;
    }

    method ReadProcessInventory(gameData: seq<byte>) returns (rest: seq<byte>, thrown: bool)
      modifies this`inventory, this`memory
      ensures var r := ReadInventory(env, old(View()), gameData);
              View() == r.main && rest == gameData[r.popped..] && thrown == r.thrown
    {
      var n, list;
      n, rest := ConvertQueueToType(gameData, 4);
      if n == None {
        return rest, true;
      }
      ghost var r := ReadCells(ITEM_SIZE, 1, Count(gameData), gameData[4..]);
      SliceTwice(gameData, 4, r.popped);
      list, rest, thrown := ReadItemList(Load32(LittleEndian, n.value), rest);
      assert [] + r.list == r.list;
      if !thrown {
        thrown := ApplyItems(list);
      }
    }

    /** Popping an empty queue is undefined, so that not exactly four bytes may be left. */
    method ReadConectedPlayerLevel(gameData: seq<byte>) returns (rest: seq<byte>, thrown: bool)
      requires |gameData| != 4
      modifies this`level
      ensures var r := ReadLevel(old(View()), gameData);
              r.popped <= |gameData| && View() == r.main && rest == gameData[r.popped..] && thrown == r.thrown
    {
      var newLevel;
      newLevel, rest := ConvertQueueToType(gameData, 4);
      if newLevel == None {
        return rest, true;
      }
      if level != Load32(LittleEndian, newLevel.value) {
        level := Load32(LittleEndian, newLevel.value);
      }
      rest, thrown := rest[1..], false;
    }

    /** One turn of the loop over the enemies. */
    method CheckEnemy(i: nat) returns (c: Option<seq<byte>>)
      requires i < |enemies|
      modifies this`enemies
      ensures c == ChangeOf(env, old(enemies)[i], memory)
      ensures var e := old(enemies)[i];
              enemies == old(enemies)[i :=
                if c.Some? then e.(health := FloatAt(memory, HealthAddress(e.address))) else e]
    {
      var e := enemies[i];
      var currentHealth := FloatAt(memory, HealthAddress(e.address));
      c := None;
      if env.differ(e.health, currentHealth) {
        c := Some(env.guidAt(e.address) + env.minus(currentHealth, e.health));
        enemies := enemies[i := e.(health := currentHealth)];
      }
    }

    method WriteEnemiesEvent() returns (m: BaseMessage)
      modifies this`enemies
      ensures m == EventMessage(ENEMIES_HEALTH, Changed(env, old(enemies), memory))
      ensures enemies == Known(env, old(enemies), memory, |old(enemies)|)
    {
      ghost var es, cells: seq<seq<byte>> := enemies, [];
      var draft: (nat, byte, seq<byte>) := (0, 4, []);
      for i := 0 to |enemies|
        invariant enemies == Known(env, es, memory, i)
        invariant cells == Changed(env, es[..i], memory) && draft == Draft(cells)
      {
        KnownStep(env, es, memory, i);
        ChangedStep(env, es, memory, i);
        var c := CheckEnemy(i);
        if c.Some? {
          draft := Push(draft, c.value, cells);
          cells := cells + [c.value];
        }
      }
      assert es[..|es|] == es;
      m := FinishEvent(ENEMIES_HEALTH, draft, cells);
    }

    /** One turn of the loop over the items. */
    method CheckItem(i: byte) returns (x: Option<seq<byte>>)
      requires i < ITEMS <= |inventory|
      modifies this`inventory
      ensures x == ItemOf(env, old(inventory), memory, i)
      ensures inventory == old(inventory)[i := if x.Some? then FloatAt(memory, ItemAddress(i)) else old(inventory)[i]]
    {
      var now := FloatAt(memory, ItemAddress(i));
      x := None;
      if (env.differ(inventory[i], now) && i < 53) || (i >= 53 && env.greater(inventory[i], now)) {
        if i == 6 && env.greater(inventory[i], now) {
          return;
        }
        if i == 7 && env.greater(inventory[25], FloatAt(memory, ItemAddress(25))) {
          return;
        } else if i == 7 && env.greater(inventory[i], now) {
          return;
        }
        x := Some([i] + env.minus(now, inventory[i]));
        inventory := inventory[i := now];
      }
    }

    method WriteInventoryEvent() returns (m: BaseMessage)
      requires |inventory| >= ITEMS
      modifies this`inventory
      ensures m == EventMessage(INVENTORY, SentItems(env, old(inventory), memory, ITEMS))
      ensures inventory == Refreshed(env, old(inventory), memory, ITEMS)
    {
      ghost var was, cells: seq<seq<byte>> := inventory, [];
      var draft: (nat, byte, seq<byte>), i: nat := (0, 4, []), 0;
      while i < ITEMS
        invariant i <= ITEMS && i != 51
        invariant inventory == Refreshed(env, was, memory, i)
        invariant cells == SentItems(env, was, memory, i) && draft == Draft(cells)
      {
        JumpLands(i);
        JumpSendsNothing(env, was, memory, i, Jump(i));
        i := Jump(i);
        JudgedAsBefore(env, was, memory, i);
        var x := CheckItem(i);
        if x.Some? {
          draft := Push(draft, x.value, cells);
          cells := cells + [x.value];
        }
        i := i + 1;
      }
      m := FinishEvent(INVENTORY, draft, cells);
    }

    /** `write`, for the pose that was read from the game. */
    method Write(pose: ConnectedPlayer) returns (messages: seq<BaseMessage>)
      requires |inventory| >= ITEMS
      modifies this`enemies, this`inventory
      ensures messages == Output(env, pose, old(View()))
      ensures enemies == Known(env, old(enemies), memory, |old(enemies)|)
      ensures inventory == Refreshed(env, old(inventory), memory, ITEMS)
    {
      messages := [SnapMessage(pose)];
      var enemy := WriteEnemiesEvent();
      if |enemy.message| > 0 {
        messages := messages + [enemy];
      }
      var items := WriteInventoryEvent();
      if |items.message| > 0 {
        messages := messages + [items];
      }
    }
  }
}
