/** The records about the main player: what is written about hurt enemies, items, the level and the
    pose, and what the three readers make of any record. A float is the four bytes it is copied as;
    float arithmetic and the lookups in the game process are parameters, so the results hold for any. */
module PlayerRecords {
  import opened Bytes
  import opened GameData

  const ITEMS := 56
  const HEALTH_OFFSET := 0x290
  const INVENTORY_ADDRESS := 0x0075_BDB0

  const GUID_SIZE := 8
  const CHANGE_SIZE := 12
  const ITEM_SIZE := 5

  type Float = b: seq<byte> | |b| == 4 witness [0, 0, 0, 0]
  type Guid = b: seq<byte> | |b| == GUID_SIZE witness [0, 0, 0, 0, 0, 0, 0, 0]

  const ZERO: Float := [0, 0, 0, 0]
  const NO_GUID: Guid := [0, 0, 0, 0, 0, 0, 0, 0]

  // ---------------------------------------------------------------- counted cells

  /** What was read of a number of equally long cells. */
  datatype Cells = Cells(list: seq<seq<byte>>, popped: nat, thrown: bool)

  predicate AllSized(cells: seq<seq<byte>>, unit: nat) {
    forall i :: 0 <= i < |cells| ==> |cells[i]| == unit
  }

  /** `n` cells of `unit` bytes, each read as a field of `head` bytes and a second one: where only the
      first is there, it is popped before the exception. */
  function ReadCells(unit: nat, head: nat, n: nat, data: seq<byte>): (r: Cells)
    requires head <= unit
    ensures r.popped <= |data| && AllSized(r.list, unit)
    decreases n
  {
    if n == 0 then Cells([], 0, false)
    else if |data| < unit then Cells([], if |data| < head then 0 else head, true)
    else
      var r := ReadCells(unit, head, n - 1, data[unit..]);
      Cells([data[..unit]] + r.list, r.popped + unit, r.thrown)
  }

  function Count(data: seq<byte>): u32
    requires |data| >= 4
  {
    Load32(LittleEndian, data[..4])
  }

  /** A four-byte count, and so many cells. */
  function ReadCounted(unit: nat, head: nat, data: seq<byte>): (r: Cells)
    requires head <= unit
    ensures r.popped <= |data| && AllSized(r.list, unit)
  {
    if |data| < 4 then Cells([], 0, true)
    else
      var r := ReadCells(unit, head, Count(data), data[4..]);
      r.(popped := r.popped + 4)
  }

  function Flat(cells: seq<seq<byte>>): seq<byte> {
    if cells == [] then [] else cells[0] + Flat(cells[1..])
  }

  /** Only the lowest byte of the count is ever set. */
  function Payload(cells: seq<seq<byte>>): seq<byte> {
    [|cells| % 0x100, 0, 0, 0] + Flat(cells)
  }

  /** The one-byte size is added up modulo 256. */
  function Written(tag: byte, cells: seq<seq<byte>>): seq<byte> {
    [tag, (4 + |Flat(cells)|) % 0x100] + Payload(cells)
  }

  lemma {:induction false} FlatSize(cells: seq<seq<byte>>, unit: nat)
    requires AllSized(cells, unit)
    ensures |Flat(cells)| == unit * |cells|
  {
    if cells == [] {
    } else {
      FlatSize(cells[1..], unit);
      assert unit * |cells| == unit + unit * |cells[1..]|;
    }
  }

  lemma {:induction false} FlatPush(cells: seq<seq<byte>>, c: seq<byte>)
    ensures Flat(cells + [c]) == Flat(cells) + c
  {
    if cells == [] {
      assert cells + [c] == [c] && [c][1..] == [];
      assert c + [] == c;
    } else {
      assert (cells + [c])[1..] == cells[1..] + [c];
      FlatPush(cells[1..], c);
      ConcatAssociates(cells[0], Flat(cells[1..]), c);
    }
  }

  lemma CellInFront(cell: seq<byte>, rest: seq<byte>, more: seq<byte>)
    ensures var data := (cell + rest) + more;
            |data| >= |cell| && data[..|cell|] == cell && data[|cell|..] == rest + more
  {
    ConcatAssociates(cell, rest, more);
    ConcatSplits(cell, rest + more);
  }

  /** Reading cells takes all of their bytes and looks no further, or throws if there are fewer. */
  lemma {:induction false} ReadCellsExactly(unit: nat, head: nat, n: nat, data: seq<byte>, rest: seq<byte>)
    requires head <= unit
    ensures ReadCells(unit, head, n, data).thrown <==> |data| < unit * n
    ensures |data| >= unit * n ==>
              var r := ReadCells(unit, head, n, data);
              ReadCells(unit, head, n, data + rest) == r && r.popped == unit * n && |r.list| == n
    decreases n
  {
    if n == 0 {
    } else {
      assert unit * n == unit + unit * (n - 1) >= unit;
      if |data| >= unit {
        ReadCellsExactly(unit, head, n - 1, data[unit..], rest);
        assert data[..unit] + data[unit..] == data;
        CellInFront(data[..unit], data[unit..], rest);
      }
    }
  }

  lemma {:induction false} ReadCellsBack(unit: nat, head: nat, cells: seq<seq<byte>>, rest: seq<byte>)
    requires head <= unit && AllSized(cells, unit)
    ensures ReadCells(unit, head, |cells|, Flat(cells) + rest) == Cells(cells, |Flat(cells)|, false)
  {
    if cells == [] {
    } else {
      CellInFront(cells[0], Flat(cells[1..]), rest);
      ReadCellsBack(unit, head, cells[1..], rest);
      assert cells == [cells[0]] + cells[1..];
    }
  }

  lemma CountInFront(n: nat, body: seq<byte>, rest: seq<byte>)
    ensures var data := ([n % 0x100, 0, 0, 0] + body) + rest;
            |data| >= 4 && Count(data) == n % 0x100 && data[4..] == body + rest
  {
    CellInFront([n % 0x100, 0, 0, 0], body, rest);
  }

  lemma ReadCountedExactly(unit: nat, head: nat, data: seq<byte>, rest: seq<byte>)
    requires head <= unit
    ensures !ReadCounted(unit, head, data).thrown <==> |data| >= 4 && |data| >= 4 + unit * Count(data)
    ensures !ReadCounted(unit, head, data).thrown ==>
              var r := ReadCounted(unit, head, data);
              ReadCounted(unit, head, data + rest) == r && r.popped == 4 + unit * Count(data)
  {
    if |data| >= 4 {
      assert (data + rest)[..4] == data[..4] && (data + rest)[4..] == data[4..] + rest;
      ReadCellsExactly(unit, head, Count(data), data[4..], rest);
    }
  }

  lemma ReadPayload(unit: nat, head: nat, cells: seq<seq<byte>>, rest: seq<byte>)
    requires head <= unit && AllSized(cells, unit) && |cells| < 0x100
    ensures ReadCounted(unit, head, Payload(cells) + rest) == Cells(cells, |Payload(cells)|, false)
  {
    var n := |cells|;
    assert n % 0x100 == n;
    CountInFront(n, Flat(cells), rest);
    ReadCellsBack(unit, head, cells, rest);
  }

  /** What was written is read back cell by cell if and only if the count fits its byte; otherwise
      cells are left over. */
  lemma ReadPayloadExactly(unit: nat, head: nat, cells: seq<seq<byte>>, rest: seq<byte>)
    requires head <= unit && 0 < unit && AllSized(cells, unit)
    ensures ReadCounted(unit, head, Payload(cells) + rest) == Cells(cells, |Payload(cells)|, false) <==> |cells| < 0x100
    ensures |cells| >= 0x100 ==> ReadCounted(unit, head, Payload(cells) + rest).popped < |Payload(cells)|
  {
    if |cells| < 0x100 {
      ReadPayload(unit, head, cells, rest);
    } else {
      var n := |cells| % 0x100;
      CountInFront(|cells|, Flat(cells), rest);
      FlatSize(cells, unit);
      assert unit * n < unit * |cells|;
      ReadCellsExactly(unit, head, n, Flat(cells) + rest, []);
    }
  }

  /** Counts are little-endian. */
  lemma CountPlaces(data: seq<byte>)
    requires |data| >= 4
    ensures Count(data)
         == data[0] as int + data[1] as int * 0x100 + data[2] as int * 0x1_0000 + data[3] as int * 0x100_0000
  {
  }

  function WholeCells(unit: nat, k: nat): nat
    requires unit > 0
  {
    if k < unit then 0 else 1 + WholeCells(unit, k - unit)
  }

  lemma {:induction false} WholeChanges(k: nat)
    ensures WholeCells(CHANGE_SIZE, k) == k / 12
  {
    if k >= CHANGE_SIZE {
      WholeChanges(k - CHANGE_SIZE);
    }
  }

  /** Cells cut after `k` bytes: the whole ones are read, and then the exception comes. */
  lemma {:induction false} ReadCellsCut(unit: nat, head: nat, cells: seq<seq<byte>>, k: nat)
    requires 0 < head <= unit && AllSized(cells, unit) && k < |Flat(cells)|
    ensures var r, whole := ReadCells(unit, head, |cells|, Flat(cells)[..k]), WholeCells(unit, k);
            r.thrown && whole <= |cells| && r.list == cells[..whole]
    decreases cells
  {
    if k >= unit {
      var cell, rest := cells[0], Flat(cells[1..]);
      PrefixOfConcat(cell, rest, k);
      ConcatSplits(cell, rest[..k - unit]);
      ReadCellsCut(unit, head, cells[1..], k - unit);
      assert cells[..WholeCells(unit, k)] == [cell] + cells[1..][..WholeCells(unit, k - unit)];
    }
  }

  // ---------------------------------------------------------------- the main player

  /** Float arithmetic, and the game's objects: the object with a GUID (0 for none) and the GUID of an
      object. */
  datatype Env = Env(
    plus: (Float, Float) -> Float, minus: (Float, Float) -> Float,
    differ: (Float, Float) -> bool, greater: (Float, Float) -> bool, negative: Float -> bool,
    objectOf: Guid -> u32, guidAt: u32 -> Guid)

  datatype Enemy = Enemy(address: u32, health: Float)

  /** `memory` holds the floats of the game process, by address. */
  datatype Player = Player(level: u32, enemies: seq<Enemy>, inventory: seq<Float>, memory: map<u32, Float>)

  function FloatAt(memory: map<u32, Float>, address: u32): Float {
    if address in memory then memory[address] else ZERO
  }

  function HealthAddress(address: u32): u32 {
    (address + HEALTH_OFFSET) % U32_LIMIT
  }

  function ItemAddress(item: byte): u32 {
    INVENTORY_ADDRESS + 4 * item
  }

  predicate Lists(env: Env, es: seq<Enemy>, guid: Guid) {
    exists i :: 0 <= i < |es| && env.guidAt(es[i].address) == guid
  }

  function FirstEnemy(env: Env, es: seq<Enemy>, guid: Guid): (i: nat)
    requires Lists(env, es, guid)
    ensures i < |es| && env.guidAt(es[i].address) == guid
    ensures forall j :: 0 <= j < i ==> env.guidAt(es[j].address) != guid
  {
    if env.guidAt(es[0].address) == guid then 0
    else
      assert Lists(env, es[1..], guid) by {
        var i :| 0 <= i < |es| && env.guidAt(es[i].address) == guid;
        assert env.guidAt(es[1..][i - 1].address) == guid;
      }
      1 + FirstEnemy(env, es[1..], guid)
  }

  /** One change, a GUID and an amount: the health the object has in the game plus the amount, for the
      first listed enemy with that GUID. */
  function Hurt(env: Env, p: Player, change: seq<byte>): (r: Player)
    requires |change| == CHANGE_SIZE
    ensures r.inventory == p.inventory
  {
    var guid: Guid, amount: Float := change[..8], change[8..];
    if guid == NO_GUID || env.objectOf(guid) == 0 || !Lists(env, p.enemies, guid) then p
    else
      var i := FirstEnemy(env, p.enemies, guid);
      var e := p.enemies[i];
      var health := env.plus(FloatAt(p.memory, HealthAddress(env.objectOf(guid))), amount);
      p.(enemies := p.enemies[i := e.(health := health)], memory := p.memory[HealthAddress(e.address) := health])
  }

  function HurtAll(env: Env, p: Player, changes: seq<seq<byte>>): (r: Player)
    requires AllSized(changes, CHANGE_SIZE)
    ensures r.inventory == p.inventory
  {
    if changes == [] then p else Hurt(env, HurtAll(env, p, changes[..|changes| - 1]), changes[|changes| - 1])
  }

  /** Each change is applied as soon as it is read. */
  function ReadHealth(env: Env, p: Player, data: seq<byte>): (r: ReadResult<Player>)
    ensures r.popped <= |data| && r.main.inventory == p.inventory
  {
    var r := ReadCounted(CHANGE_SIZE, GUID_SIZE, data);
    ReadResult(HurtAll(env, p, r.list), r.popped, r.thrown)
  }

  /** One item, an index and an amount: the new value is not below zero. */
  function Gain(env: Env, p: Player, item: seq<byte>): (r: Player)
    requires |item| == ITEM_SIZE && item[0] < |p.inventory|
    ensures |r.inventory| == |p.inventory|
  {
    var sum := env.plus(p.inventory[item[0]], item[1..]);
    var value := if env.negative(sum) then ZERO else sum;
    p.(inventory := p.inventory[item[0] := value], memory := p.memory[ItemAddress(item[0]) := value])
  }

  /** An index past the end throws; the items before it stay applied. */
  function GainAll(env: Env, p: Player, items: seq<seq<byte>>): (r: (Player, bool))
    requires AllSized(items, ITEM_SIZE)
    ensures |r.0.inventory| == |p.inventory|
    decreases items
  {
    if items == [] then (p, false)
    else if items[0][0] >= |p.inventory| then (p, true)
    else GainAll(env, Gain(env, p, items[0]), items[1..])
  }

  /** All items are read before the first is applied. */
  function ReadInventory(env: Env, p: Player, data: seq<byte>): (r: ReadResult<Player>)
    ensures r.popped <= |data| && |r.main.inventory| == |p.inventory|
  {
    var r := ReadCounted(ITEM_SIZE, 1, data);
    if r.thrown then ReadResult(p, r.popped, true)
    else
      var (q, thrown) := GainAll(env, p, r.list);
      ReadResult(q, r.popped, thrown)
  }

  /** The level, and one more byte that is popped without a look at the queue: `popped` is one too
      many where just four bytes were left. */
  function ReadLevel(p: Player, data: seq<byte>): (r: ReadResult<Player>)
    ensures r.main.inventory == p.inventory
  {
    if |data| < 4 then ReadResult(p, 0, true) else ReadResult(p.(level := Count(data)), 5, false)
  }

  // ---------------------------------------------------------------- what the readers do, written out

  /** The float of the game at an address; what was never seen is zero. */
  predicate HoldsFloat(memory: map<u32, Float>, address: int, value: Float) {
    if address in memory then memory[address] == value else value == [0, 0, 0, 0]
  }

  /** Enemy `i` is the first with the change's GUID, and the game has that object. */
  predicate Targets(env: Env, p: Player, change: seq<byte>, i: nat)
    requires |change| == CHANGE_SIZE
  {
    && i < |p.enemies| && env.guidAt(p.enemies[i].address) == change[..8]
    && (forall j :: 0 <= j < i ==> env.guidAt(p.enemies[j].address) != change[..8])
    && change[..8] != [0, 0, 0, 0, 0, 0, 0, 0] && env.objectOf(change[..8]) != 0
  }

  /** A change that targets an enemy sets its health, here and in the game, to what the object has in
      the game plus the amount. */
  lemma HurtTarget(env: Env, p: Player, change: seq<byte>, i: nat, was: Float)
    requires |change| == CHANGE_SIZE && Targets(env, p, change, i)
    requires HoldsFloat(p.memory, (env.objectOf(change[..8]) + 0x290) % 0x1_0000_0000, was)
    ensures var r, health := Hurt(env, p, change), env.plus(was, change[8..]);
            && r.level == p.level && r.inventory == p.inventory
            && r.enemies == p.enemies[i := Enemy(p.enemies[i].address, health)]
            && r.memory == p.memory[(p.enemies[i].address + 0x290) % 0x1_0000_0000 := health]
  {
    assert Lists(env, p.enemies, change[..8]);
    assert FirstEnemy(env, p.enemies, change[..8]) == i;
  }

  /** Any other change does nothing. */
  lemma HurtNothing(env: Env, p: Player, change: seq<byte>)
    requires |change| == CHANGE_SIZE && forall i: nat :: !Targets(env, p, change, i)
    ensures Hurt(env, p, change) == p
  {
    if Lists(env, p.enemies, change[..8]) {
      var i := FirstEnemy(env, p.enemies, change[..8]);
      assert !Targets(env, p, change, i);
    }
  }

  /** The changes target the enemies `at`, all different, and their healths lie at different addresses,
      where the game has them. */
  predicate EachTargets(env: Env, p: Player, changes: seq<seq<byte>>, at: seq<nat>)
    requires AllSized(changes, CHANGE_SIZE)
  {
    && |at| == |changes|
    && (forall k :: 0 <= k < |at| ==>
          Targets(env, p, changes[k], at[k]) && env.objectOf(changes[k][..8]) == p.enemies[at[k]].address)
    && (forall k, l :: 0 <= k < l < |at| ==>
          at[k] != at[l] && HealthAddress(p.enemies[at[k]].address) != HealthAddress(p.enemies[at[l]].address))
  }

  lemma {:induction false} AddressesStay(env: Env, p: Player, changes: seq<seq<byte>>)
    requires AllSized(changes, CHANGE_SIZE)
    ensures var r := HurtAll(env, p, changes);
            && |r.enemies| == |p.enemies|
            && forall i :: 0 <= i < |p.enemies| ==> r.enemies[i].address == p.enemies[i].address
  {
    if changes == [] {
    } else {
      AddressesStay(env, p, changes[..|changes| - 1]);
    }
  }

  lemma TargetsStay(env: Env, p: Player, q: Player, change: seq<byte>, i: nat)
    requires |change| == CHANGE_SIZE && Targets(env, p, change, i) && |q.enemies| == |p.enemies|
    requires forall j :: 0 <= j < |p.enemies| ==> q.enemies[j].address == p.enemies[j].address
    ensures Targets(env, q, change, i)
  {
  }

  /** The last change, on top of those before it. */
  lemma HurtLast(env: Env, p: Player, changes: seq<seq<byte>>, at: seq<nat>)
    requires AllSized(changes, CHANGE_SIZE) && EachTargets(env, p, changes, at) && changes != []
    ensures var n := |changes| - 1;
            var q, i := HurtAll(env, p, changes[..n]), at[n];
            var a := HealthAddress(p.enemies[i].address);
            var health := env.plus(FloatAt(q.memory, a), changes[n][8..]);
            && EachTargets(env, p, changes[..n], at[..n]) && |q.enemies| == |p.enemies|
            && HurtAll(env, p, changes).enemies == q.enemies[i := Enemy(p.enemies[i].address, health)]
            && HurtAll(env, p, changes).memory == q.memory[a := health]
  {
    var n := |changes| - 1;
    var q, i := HurtAll(env, p, changes[..n]), at[n];
    AddressesStay(env, p, changes[..n]);
    TargetsStay(env, p, q, changes[n], i);
    HurtTarget(env, q, changes[n], i, FloatAt(q.memory, HealthAddress(p.enemies[i].address)));
  }

  lemma {:induction false} OthersUnhurt(env: Env, p: Player, changes: seq<seq<byte>>, at: seq<nat>, j: nat)
    requires AllSized(changes, CHANGE_SIZE) && EachTargets(env, p, changes, at)
    requires j < |p.enemies| && forall k :: 0 <= k < |at| ==> at[k] != j
    ensures var r := HurtAll(env, p, changes); |r.enemies| == |p.enemies| && r.enemies[j] == p.enemies[j]
  {
    if changes == [] {
    } else {
      HurtLast(env, p, changes, at);
      OthersUnhurt(env, p, changes[..|changes| - 1], at[..|changes| - 1], j);
    }
  }

  lemma {:induction false} ElsewhereUnchanged(env: Env, p: Player, changes: seq<seq<byte>>, at: seq<nat>, a: u32)
    requires AllSized(changes, CHANGE_SIZE) && EachTargets(env, p, changes, at)
    requires forall k :: 0 <= k < |at| ==> HealthAddress(p.enemies[at[k]].address) != a
    ensures FloatAt(HurtAll(env, p, changes).memory, a) == FloatAt(p.memory, a)
  {
    if changes == [] {
    } else {
      HurtLast(env, p, changes, at);
      ElsewhereUnchanged(env, p, changes[..|changes| - 1], at[..|changes| - 1], a);
    }
  }

  lemma {:induction false} EachHurt(env: Env, p: Player, changes: seq<seq<byte>>, at: seq<nat>, k: nat)
    requires AllSized(changes, CHANGE_SIZE) && EachTargets(env, p, changes, at) && k < |changes|
    ensures var r, a := HurtAll(env, p, changes), HealthAddress(p.enemies[at[k]].address);
            && |r.enemies| == |p.enemies|
            && r.enemies[at[k]].health == env.plus(FloatAt(p.memory, a), changes[k][8..])
            && FloatAt(r.memory, a) == r.enemies[at[k]].health
  {
    var n := |changes| - 1;
    HurtLast(env, p, changes, at);
    if k == n {
      ElsewhereUnchanged(env, p, changes[..n], at[..n], HealthAddress(p.enemies[at[n]].address));
    } else {
      EachHurt(env, p, changes[..n], at[..n], k);
    }
  }

  /** Changes to different enemies all arrive, each on its own: such an enemy has its old health in the
      game plus the one amount meant for it, in the game too, and every other is as it was. */
  lemma EachHurtOnce(env: Env, p: Player, changes: seq<seq<byte>>, at: seq<nat>)
    requires AllSized(changes, CHANGE_SIZE) && EachTargets(env, p, changes, at)
    ensures var r := HurtAll(env, p, changes);
            && |r.enemies| == |p.enemies|
            && (forall k :: 0 <= k < |at| ==>
                  var a := HealthAddress(p.enemies[at[k]].address);
                  && r.enemies[at[k]].health == env.plus(FloatAt(p.memory, a), changes[k][8..])
                  && FloatAt(r.memory, a) == r.enemies[at[k]].health)
            && (forall j :: 0 <= j < |p.enemies| && j !in at ==> r.enemies[j] == p.enemies[j])
  {
    AddressesStay(env, p, changes);
    forall k | 0 <= k < |at|
      ensures var r, a := HurtAll(env, p, changes), HealthAddress(p.enemies[at[k]].address);
              && r.enemies[at[k]].health == env.plus(FloatAt(p.memory, a), changes[k][8..])
              && FloatAt(r.memory, a) == r.enemies[at[k]].health
    {
      EachHurt(env, p, changes, at, k);
    }
    forall j | 0 <= j < |p.enemies| && j !in at
      ensures HurtAll(env, p, changes).enemies[j] == p.enemies[j]
    {
      OthersUnhurt(env, p, changes, at, j);
    }
  }

  /** An item adds its amount to the value of its index, here and in the game, but not below zero. */
  lemma GainOne(env: Env, p: Player, item: seq<byte>)
    requires |item| == ITEM_SIZE && item[0] < |p.inventory|
    ensures var r, sum := Gain(env, p, item), env.plus(p.inventory[item[0]], item[1..]);
            var value := if env.negative(sum) then [0, 0, 0, 0] else sum;
            && r.level == p.level && r.enemies == p.enemies
            && r.inventory == p.inventory[item[0] := value]
            && r.memory == p.memory[0x0075_BDB0 + 4 * item[0] as int := value]
  {
  }

  /** Items with different indices are all applied, each on its own; no other value changes. */
  lemma {:induction false} EachGainedOnce(env: Env, p: Player, items: seq<seq<byte>>, j: nat)
    requires AllSized(items, ITEM_SIZE) && j < |p.inventory|
    requires forall k :: 0 <= k < |items| ==> items[k][0] < |p.inventory|
    requires forall k, l :: 0 <= k < l < |items| ==> items[k][0] != items[l][0]
    ensures var (r, thrown) := GainAll(env, p, items);
            && !thrown && r.enemies == p.enemies && r.level == p.level
            && (forall k :: 0 <= k < |items| && items[k][0] == j ==>
                  var sum := env.plus(p.inventory[j], items[k][1..]);
                  r.inventory[j] == if env.negative(sum) then [0, 0, 0, 0] else sum)
            && ((forall k :: 0 <= k < |items| ==> items[k][0] != j) ==> r.inventory[j] == p.inventory[j])
    decreases items
  {
    if items == [] {
    } else {
      GainOne(env, p, items[0]);
      assert forall k :: 0 <= k < |items[1..]| ==> items[1..][k] == items[k + 1];
      EachGainedOnce(env, Gain(env, p, items[0]), items[1..], j);
      assert forall k :: 1 <= k < |items| ==> items[k] == items[1..][k - 1];
    }
  }

  /** An item past the end of the inventory throws after the items before it were applied, and those
      after it are lost. */
  lemma {:induction false} GainStops(env: Env, p: Player, items: seq<seq<byte>>, bad: seq<byte>, rest: seq<seq<byte>>)
    requires AllSized(items, ITEM_SIZE) && AllSized(items + [bad] + rest, ITEM_SIZE) && |bad| == ITEM_SIZE
    requires bad[0] >= |p.inventory| && forall k :: 0 <= k < |items| ==> items[k][0] < |p.inventory|
    ensures GainAll(env, p, items + [bad] + rest) == (GainAll(env, p, items).0, true)
    decreases items
  {
    var all := items + [bad] + rest;
    if items == [] {
      assert all[0] == bad;
    } else {
      assert all[0] == items[0] && all[1..] == items[1..] + [bad] + rest;
      GainStops(env, Gain(env, p, items[0]), items[1..], bad, rest);
    }
  }

  /** The level is the first four bytes, least significant first. */
  lemma LevelTaken(p: Player, data: seq<byte>)
    requires |data| >= 5
    ensures ReadLevel(p, data).main == p.(level := data[0] as int + data[1] as int * 0x100 + data[2] as int * 0x1_0000
                                                   + data[3] as int * 0x100_0000)
    ensures ReadLevel(p, data).popped == 5 && !ReadLevel(p, data).thrown
  {
    CountPlaces(data);
  }

  // ---------------------------------------------------------------- well-formed records, exactly

  /** A player that has entered a level: its inventory has been listed. */
  type Loaded = p: Player | |p.inventory| >= ITEMS witness Player(0, [], seq(ITEMS, _ => [0, 0, 0, 0]), map[])

  const FRESH: Loaded := Player(0, [], seq(ITEMS, _ => ZERO), map[])

  function Keep(p: Loaded, r: ReadResult<Player>): ReadResult<Loaded>
    requires |r.main.inventory| == |p.inventory|
  {
    ReadResult(r.main, r.popped, r.thrown)
  }

  function PlayerReaders(env: Env): Readers<Loaded> {
    Readers<Loaded>.Readers(
      (p: Loaded, data: seq<byte>) => Keep(p, ReadLevel(p, data)),
      (p: Loaded, data: seq<byte>) => Keep(p, ReadHealth(env, p, data)),
      (p: Loaded, data: seq<byte>) => Keep(p, ReadInventory(env, p, data)))
  }

  /** An exception leaves the applying loop exactly when some index is past the inventory's end. */
  lemma {:induction false} GainThrowsExactly(env: Env, p: Player, items: seq<seq<byte>>)
    requires AllSized(items, ITEM_SIZE)
    ensures GainAll(env, p, items).1 <==> exists i :: 0 <= i < |items| && items[i][0] >= |p.inventory|
    decreases items
  {
    if items == [] {
    } else if items[0][0] < |p.inventory| {
      GainThrowsExactly(env, Gain(env, p, items[0]), items[1..]);
      assert forall i :: 0 < i < |items| ==> items[i] == items[1..][i - 1];
    }
  }

  predicate AllListed(items: seq<seq<byte>>)
    requires AllSized(items, ITEM_SIZE)
  {
    forall i :: 0 <= i < |items| ==> items[i][0] < ITEMS
  }

  lemma WholeRecordRead(env: Env, r: Record, p: Loaded)
    requires WellFormed(PlayerReaders(env), r) && r.tag != CONNECTED_PLAYER_SNAP
    ensures var out := PlayerReaders(env).For(r.tag)(p, r.payload); out.popped == |r.payload| && !out.thrown
  {
    assert r.payload + [] == r.payload;
    assert PlayerReaders(env).For(r.tag)(p, r.payload) == PlayerReaders(env).For(r.tag)(p, r.payload + []);
  }

  /** A health record is read whole, by every loaded player and whatever follows it, exactly when it is
      as long as its count says. */
  lemma HealthWellFormed(env: Env, payload: seq<byte>)
    requires |payload| < 0x100
    ensures WellFormed(PlayerReaders(env), Record(ENEMIES_HEALTH, payload))
       <==> |payload| >= 4 && |payload| == 4 + CHANGE_SIZE * Count(payload)
  {
    var readers, r := PlayerReaders(env), Record(ENEMIES_HEALTH, payload);
    ReadCountedExactly(CHANGE_SIZE, GUID_SIZE, payload, []);
    if |payload| >= 4 && |payload| == 4 + CHANGE_SIZE * Count(payload) {
      forall p: Loaded, rest: seq<byte>
        ensures readers.For(r.tag)(p, payload + rest)
             == ReadResult(readers.For(r.tag)(p, payload).main, |payload|, false)
      {
        ReadCountedExactly(CHANGE_SIZE, GUID_SIZE, payload, rest);
      }
    }
    if WellFormed(readers, r) {
      WholeRecordRead(env, r, FRESH);
    }
  }

  /** An inventory record is read whole by every loaded player exactly when it is as long as its count
      says and names none but the 56 listed items. */
  lemma InventoryWellFormed(env: Env, payload: seq<byte>)
    requires |payload| < 0x100
    ensures WellFormed(PlayerReaders(env), Record(INVENTORY, payload))
       <==> && |payload| >= 4 && |payload| == 4 + ITEM_SIZE * Count(payload)
            && AllListed(ReadCounted(ITEM_SIZE, 1, payload).list)
  {
    var readers, r := PlayerReaders(env), Record(INVENTORY, payload);
    var items := ReadCounted(ITEM_SIZE, 1, payload).list;
    ReadCountedExactly(ITEM_SIZE, 1, payload, []);
    if |payload| >= 4 && |payload| == 4 + ITEM_SIZE * Count(payload) && AllListed(items) {
      forall p: Loaded, rest: seq<byte>
        ensures readers.For(r.tag)(p, payload + rest)
             == ReadResult(readers.For(r.tag)(p, payload).main, |payload|, false)
      {
        ReadCountedExactly(ITEM_SIZE, 1, payload, rest);
        GainThrowsExactly(env, p, items);
      }
    }
    if WellFormed(readers, r) {
      WholeRecordRead(env, r, FRESH);
      GainThrowsExactly(env, FRESH, items);
    }
  }

  /** A level record is read whole exactly when it has five bytes. */
  lemma LevelWellFormed(env: Env, payload: seq<byte>)
    requires |payload| < 0x100
    ensures WellFormed(PlayerReaders(env), Record(CONNECTED_PLAYER_LEVEL, payload)) <==> |payload| == 5
  {
    var readers, r := PlayerReaders(env), Record(CONNECTED_PLAYER_LEVEL, payload);
    if |payload| == 5 {
      forall p: Loaded, rest: seq<byte>
        ensures readers.For(r.tag)(p, payload + rest)
             == ReadResult(readers.For(r.tag)(p, payload).main, |payload|, false)
      {
        assert (payload + rest)[..4] == payload[..4];
      }
    }
    if WellFormed(readers, r) {
      WholeRecordRead(env, r, FRESH);
    }
  }

  // ---------------------------------------------------------------- records as written

  /** The bytes are one record that every loaded receiver reads whole. */
  ghost predicate IsRecord(env: Env, bytes: seq<byte>, r: Record) {
    |r.payload| < 0x100 && bytes == RecordBytes(r) && WellFormed(PlayerReaders(env), r)
  }

  /** Such a record has its effect on the receiver, or none if its label is disabled, and that is all. */
  lemma RecordIsRead(labels: map<byte, bool>, env: Env, sender: byte, s: GameState<Loaded>, bytes: seq<byte>, r: Record)
    requires s.players != [] && IsRecord(env, bytes, r)
    ensures var readers := PlayerReaders(env);
            ReadGame(labels, readers, sender, s, bytes)
            == Outcome(if LabelEnabled(labels, r.tag) then ApplyRecord(readers, sender, s, r) else s, [], false)
  {
    ReadFirst(labels, PlayerReaders(env), sender, s, r, []);
    assert RecordBytes(r) + [] == RecordBytes(r);
  }

  lemma PayloadCount(cells: seq<seq<byte>>)
    requires |cells| < 0x100
    ensures Count(Payload(cells)) == |cells|
  {
    CountInFront(|cells|, Flat(cells), []);
    assert Payload(cells) + [] == Payload(cells);
  }

  /** What is written about hurt enemies is a record whose declared size is its own, if and only if at
      most twenty were hurt: from the twenty-first on the size wraps. */
  lemma HealthRecordExactly(env: Env, changes: seq<seq<byte>>)
    requires AllSized(changes, CHANGE_SIZE)
    ensures IsRecord(env, Written(ENEMIES_HEALTH, changes), Record(ENEMIES_HEALTH, Payload(changes)))
       <==> |changes| <= 20
  {
    FlatSize(changes, CHANGE_SIZE);
    if |changes| <= 20 {
      PayloadCount(changes);
      HealthWellFormed(env, Payload(changes));
    } else {
      assert |Payload(changes)| >= 0x100;
    }
  }

  lemma DisabledRecord<M>(labels: map<byte, bool>, readers: Readers<M>, sender: byte, s: GameState<M>,
                          tag: byte, size: byte, body: seq<byte>)
    requires s.players != [] && !LabelEnabled(labels, tag)
    ensures ReadGame(labels, readers, sender, s, [tag, size] + body)
         == ReadGame(labels, readers, sender, s, Drop(body, size))
  {
    var data := [tag, size] + body;
    assert data[0] == tag && data[1] == size && data[2..] == body;
  }

  lemma WrapsExactly(changes: seq<seq<byte>>)
    requires AllSized(changes, CHANGE_SIZE)
    ensures Drop(Payload(changes), |Payload(changes)| % 0x100) == [] <==> |changes| <= 20
  {
    FlatSize(changes, CHANGE_SIZE);
    assert |Payload(changes)| < 0x100 <==> |changes| <= 20;
  }

  /** So, with the label disabled, the bytes past the wrapped size are taken for further records. */
  lemma WrappedSizeLeavesBytes<M>(labels: map<byte, bool>, readers: Readers<M>, sender: byte, s: GameState<M>,
                                  changes: seq<seq<byte>>)
    requires s.players != [] && !LabelEnabled(labels, ENEMIES_HEALTH) && AllSized(changes, CHANGE_SIZE)
    ensures var left := Drop(Payload(changes), |Payload(changes)| % 0x100);
            && ReadGame(labels, readers, sender, s, Written(ENEMIES_HEALTH, changes))
               == ReadGame(labels, readers, sender, s, left)
            && (left == [] <==> |changes| <= 20)
  {
    WrapsExactly(changes);
    var size: byte, payload := |Payload(changes)| % 0x100, Payload(changes);
    assert Written(ENEMIES_HEALTH, changes) == [ENEMIES_HEALTH, size] + payload;
    DisabledRecord(labels, readers, sender, s, ENEMIES_HEALTH, size, payload);
  }

  /** With the label enabled the size is not looked at, and the receiver applies every change in order
      with nothing left over if and only if fewer than 256 enemies were hurt. */
  lemma HurtEnemiesArriveExactly(env: Env, sender: byte, s: GameState<Loaded>, changes: seq<seq<byte>>)
    requires s.players != [] && AllSized(changes, CHANGE_SIZE)
    ensures ReadRecord(PlayerReaders(env), sender, s, ENEMIES_HEALTH, Payload(changes))
         == Outcome(s.(main := HurtAll(env, s.main, changes)), [], false)
       <==> |changes| < 0x100
  {
    ReadPayloadExactly(CHANGE_SIZE, GUID_SIZE, changes, []);
    assert Payload(changes) + [] == Payload(changes);
  }

  lemma ItemsPayload(items: seq<seq<byte>>)
    requires AllSized(items, ITEM_SIZE) && |items| <= 50
    ensures var payload := Payload(items);
            && 4 <= |payload| < 0x100 && |payload| == 4 + ITEM_SIZE * Count(payload)
            && ReadCounted(ITEM_SIZE, 1, payload).list == items
  {
    FlatSize(items, ITEM_SIZE);
    PayloadCount(items);
    ReadPayload(ITEM_SIZE, 1, items, []);
    assert Payload(items) + [] == Payload(items);
  }

  lemma WrittenWithItsSize(tag: byte, cells: seq<seq<byte>>)
    requires |Payload(cells)| < 0x100
    ensures Written(tag, cells) == RecordBytes(Record(tag, Payload(cells)))
  {
  }

  lemma CutPayload(cells: seq<seq<byte>>, k: nat)
    requires |cells| < 0x100 && k <= |Flat(cells)|
    ensures var data := Payload(cells)[..4 + k];
            |data| == 4 + k && Count(data) == |cells| && data[4..] == Flat(cells)[..k]
  {
    PayloadCount(cells);
    assert Payload(cells)[..4 + k][..4] == Payload(cells)[..4];
  }

  /** A record about enemies that breaks off: the changes that are whole were applied when the exception
      comes. Of one about items nothing was. */
  lemma BrokenRecord(env: Env, p: Player, changes: seq<seq<byte>>, items: seq<seq<byte>>, k: nat, l: nat)
    requires AllSized(changes, CHANGE_SIZE) && |changes| < 0x100 && k < |Flat(changes)|
    requires AllSized(items, ITEM_SIZE) && |items| < 0x100 && l < |Flat(items)|
    ensures var r := ReadHealth(env, p, Payload(changes)[..4 + k]);
            && r.thrown && k / 12 <= |changes| && r.main == HurtAll(env, p, changes[..k / 12])
    ensures var r := ReadInventory(env, p, Payload(items)[..4 + l]); r.thrown && r.main == p
  {
    CutPayload(changes, k);
    WholeChanges(k);
    ReadCellsCut(CHANGE_SIZE, GUID_SIZE, changes, k);
    CutPayload(items, l);
    ReadCellsCut(ITEM_SIZE, 1, items, l);
  }

  /** What is written about listed items is a well-formed record as long as there are at most fifty. */
  lemma ItemsRecord(env: Env, items: seq<seq<byte>>)
    requires AllSized(items, ITEM_SIZE) && AllListed(items) && |items| <= 50
    ensures IsRecord(env, Written(INVENTORY, items), Record(INVENTORY, Payload(items)))
  {
    ItemsPayload(items);
    WrittenWithItsSize(INVENTORY, items);
    assert AllListed(ReadCounted(ITEM_SIZE, 1, Payload(items)).list);
    InventoryWellFormed(env, Payload(items));
  }

  /** And a loaded player that reads it applies every item. */
  lemma ItemsArrive(env: Env, p: Loaded, items: seq<seq<byte>>)
    requires AllSized(items, ITEM_SIZE) && AllListed(items) && |items| < 0x100
    ensures ReadInventory(env, p, Payload(items)) == ReadResult(GainAll(env, p, items).0, |Payload(items)|, false)
  {
    ReadPayload(ITEM_SIZE, 1, items, []);
    assert Payload(items) + [] == Payload(items);
    GainThrowsExactly(env, p, items);
  }

  function LevelPayload(before: u32, after: u32): seq<byte> {
    Store32(LittleEndian, 0) + Store32(LittleEndian, before) + Store32(LittleEndian, after)
  }

  /** The level event is never read as written: its reader takes the leading zero for the level and
      leaves seven of the twelve bytes to be taken for further records. */
  lemma LevelEventMisread(env: Env, p: Player, before: u32, after: u32, rest: seq<byte>)
    ensures |LevelPayload(before, after)| == 12
    ensures ReadLevel(p, LevelPayload(before, after) + rest) == ReadResult(p.(level := 0), 5, false)
    ensures !WellFormed(PlayerReaders(env), Record(CONNECTED_PLAYER_LEVEL, LevelPayload(before, after)))
  {
    var payload := LevelPayload(before, after);
    assert (payload + rest)[..4] == Store32(LittleEndian, 0);
    LevelWellFormed(env, payload);
  }

  function SnapPayload(q: ConnectedPlayer): seq<byte> {
    [q.hostLevel] + q.animation + q.animFrame + q.lastAnimFrame
    + q.positionX + q.positionY + q.positionZ + q.rotationY + [q.weapon]
  }

  predicate FieldSizes(q: ConnectedPlayer) {
    && |q.animation| == 4 && |q.animFrame| == 4 && |q.lastAnimFrame| == 4
    && |q.positionX| == 4 && |q.positionY| == 4 && |q.positionZ| == 4 && |q.rotationY| == 4
  }

  /** A written pose is read back into the receiver's slot, all nine fields. */
  lemma PoseReadBack(p: ConnectedPlayer, q: ConnectedPlayer)
    requires FieldSizes(q)
    ensures |SnapPayload(q)| == SNAP_SIZE && SnapFields(p, SnapPayload(q)) == q.(id := p.id)
  {
  }
}
