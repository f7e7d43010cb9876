/** Scans of the game's object stack, over 32-bit addresses that wrap. */
module ObjectStack {
  import opened Bytes

  const OBJECT_PTR_SIZE := 0x14

  function Add32(a: u32, b: nat): u32 {
    (a + b) % U32_LIMIT
  }

  /** `objectStackSize * OBJECT_PTR_SIZE` in 32 bits, the bound of every scan. */
  function Limit(stackSize: u32): u32 {
    stackSize * OBJECT_PTR_SIZE % U32_LIMIT
  }

  /** How many offsets 0, 0x14, ... lie below a bound. */
  function SlotsBelow(limit: nat): nat {
    (limit + OBJECT_PTR_SIZE - 1) / OBJECT_PTR_SIZE
  }

  /** A scan visits exactly the slots of the stack if and only if the product does not wrap;
      otherwise it visits fewer. */
  lemma ScansWholeStackExactly(stackSize: u32)
    ensures SlotsBelow(Limit(stackSize)) == stackSize <==> stackSize * OBJECT_PTR_SIZE < U32_LIMIT
    ensures SlotsBelow(Limit(stackSize)) <= stackSize
  {
    var product: nat := stackSize * OBJECT_PTR_SIZE;
    if product >= U32_LIMIT {
      assert Limit(stackSize) <= product - U32_LIMIT;
    }
  }

  /** With wrap or without, the slots visited are those whose offset lies below the 32-bit product. */
  lemma VisitsExactly(stackSize: u32, i: nat)
    ensures i < SlotsBelow(Limit(stackSize)) <==> i * 0x14 < stackSize * 0x14 % 0x1_0000_0000
  {
    SlotCount(Limit(stackSize), i);
  }

  lemma SlotCount(limit: nat, i: nat)
    ensures i * OBJECT_PTR_SIZE < limit <==> i < SlotsBelow(limit)
  {
  }

  /** The game's memory as the scans read it: 32-bit words, and values of the pattern's type. */
  datatype Memory<!P, !T> = Memory(word: u32 -> u32, pattern: u32 -> P, value: u32 -> T)

  function SlotAddress(base: u32, i: nat): u32 {
    Add32(base, i * OBJECT_PTR_SIZE)
  }

  /** Slot `i` holds an object with the pattern at the given shift. */
  predicate Hit<P(==), T>(m: Memory<P, T>, base: u32, shift: u32, pattern: P, i: nat) {
    var obj := m.word(SlotAddress(base, i));
    obj != 0 && m.pattern(Add32(obj, shift)) == pattern
  }

  /** The hits among the first `n` slots, in slot order. */
  function Hits<P(==), T>(m: Memory<P, T>, base: u32, shift: u32, pattern: P, n: nat): seq<nat> {
    if n == 0 then []
    else Hits(m, base, shift, pattern, n - 1) + if Hit(m, base, shift, pattern, n - 1) then [n - 1] else []
  }

  lemma {:induction false} HitsAreExact<P, T>(m: Memory<P, T>, base: u32, shift: u32, pattern: P, n: nat)
    ensures forall i :: i in Hits(m, base, shift, pattern, n) <==> 0 <= i < n && Hit(m, base, shift, pattern, i)
    ensures forall a, b :: 0 <= a < b < |Hits(m, base, shift, pattern, n)|
              ==> Hits(m, base, shift, pattern, n)[a] < Hits(m, base, shift, pattern, n)[b]
  {
    if n > 0 {
      HitsAreExact(m, base, shift, pattern, n - 1);
      var before := Hits(m, base, shift, pattern, n - 1);
      forall a | 0 <= a < |before|
        ensures before[a] < n - 1
      {
        assert before[a] in before;
      }
    }
  }

  /** What a hit is: the word in the slot is an object, and the pattern lies at the shift from it. */
  lemma HitsHoldPattern<P, T>(m: Memory<P, T>, base: u32, shift: u32, pattern: P, n: nat, i: nat)
    requires i < n
    ensures var obj := m.word((base + i * 0x14) % 0x1_0000_0000);
            i in Hits(m, base, shift, pattern, n) <==> obj != 0 && m.pattern((obj + shift) % 0x1_0000_0000) == pattern
  {
    HitsAreExact(m, base, shift, pattern, n);
  }

  lemma {:induction false} HitsPrefix<P, T>(m: Memory<P, T>, base: u32, shift: u32, pattern: P, k: nat, n: nat)
    requires k <= n
    ensures Hits(m, base, shift, pattern, k) <= Hits(m, base, shift, pattern, n)
    decreases n
  {
    if k < n {
      HitsPrefix(m, base, shift, pattern, k, n - 1);
    }
  }

  /** The objects in the given slots. */
  function Objects<P, T>(m: Memory<P, T>, base: u32, slots: seq<nat>): (r: seq<u32>)
    ensures |r| == |slots|
  {
    if slots == [] then []
    else Objects(m, base, slots[..|slots| - 1]) + [m.word(SlotAddress(base, slots[|slots| - 1]))]
  }

  lemma {:induction false} ObjectsAt<P, T>(m: Memory<P, T>, base: u32, slots: seq<nat>, k: nat)
    requires k < |slots|
    ensures Objects(m, base, slots)[k] == m.word(SlotAddress(base, slots[k]))
  {
    if k < |slots| - 1 {
      ObjectsAt(m, base, slots[..|slots| - 1], k);
    }
  }

  lemma ObjectsPush<P, T>(m: Memory<P, T>, base: u32, slots: seq<nat>, slot: nat)
    ensures Objects(m, base, slots + [slot]) == Objects(m, base, slots) + [m.word(SlotAddress(base, slot))]
  {
    assert (slots + [slot])[..|slots|] == slots;
  }

  lemma ObjectsOfNextSlot<P, T>(m: Memory<P, T>, base: u32, shift: u32, pattern: P, i: nat)
    ensures Objects(m, base, Hits(m, base, shift, pattern, i + 1))
         == Objects(m, base, Hits(m, base, shift, pattern, i))
            + if Hit(m, base, shift, pattern, i) then [m.word(SlotAddress(base, i))] else []
    ensures !Hit(m, base, shift, pattern, i)
        ==> Objects(m, base, Hits(m, base, shift, pattern, i + 1)) == Objects(m, base, Hits(m, base, shift, pattern, i))
  {
    var before := Hits(m, base, shift, pattern, i);
    ObjectsPush(m, base, before, i);
    assert before + [] == before;
  }

  /** Slot `i`, within the scan, holds the object `obj` with the pattern at the shift from it. */
  predicate Matches<P(==), T>(m: Memory<P, T>, base: u32, stackSize: u32, shift: u32, pattern: P, i: nat, obj: u32) {
    && i * 0x14 < stackSize * 0x14 % 0x1_0000_0000
    && obj == m.word((base + i * 0x14) % 0x1_0000_0000)
    && obj != 0 && m.pattern((obj + shift) % 0x1_0000_0000) == pattern
  }

  lemma FoundMatch<P, T>(m: Memory<P, T>, base: u32, stackSize: u32, shift: u32, pattern: P, i: nat)
    ensures i in Hits(m, base, shift, pattern, SlotsBelow(Limit(stackSize)))
       <==> Matches(m, base, stackSize, shift, pattern, i, m.word(SlotAddress(base, i)))
  {
    var n := SlotsBelow(Limit(stackSize));
    VisitsExactly(stackSize, i);
    if i < n {
      HitsHoldPattern(m, base, shift, pattern, n, i);
    } else {
      HitsAreExact(m, base, shift, pattern, n);
    }
  }

  lemma MatchObject<P, T>(m: Memory<P, T>, base: u32, stackSize: u32, shift: u32, pattern: P, i: nat, obj: u32)
    requires Matches(m, base, stackSize, shift, pattern, i, obj)
    ensures obj == m.word(SlotAddress(base, i))
  {
  }

  /** The first hit, and what is in it: no slot before it matches. */
  lemma FirstFound<P, T>(m: Memory<P, T>, base: u32, stackSize: u32, shift: u32, pattern: P)
    ensures var hits := Hits(m, base, shift, pattern, SlotsBelow(Limit(stackSize)));
            && (hits == [] ==> forall i: nat, obj: u32 :: !Matches(m, base, stackSize, shift, pattern, i, obj))
            && (hits != [] ==>
                  && Matches(m, base, stackSize, shift, pattern, hits[0], m.word(SlotAddress(base, hits[0])))
                  && forall i: nat, obj: u32 :: i < hits[0] ==> !Matches(m, base, stackSize, shift, pattern, i, obj))
  {
    var n := SlotsBelow(Limit(stackSize));
    var hits := Hits(m, base, shift, pattern, n);
    HitsAreExact(m, base, shift, pattern, n);
    forall i: nat, obj: u32 | Matches(m, base, stackSize, shift, pattern, i, obj)
      ensures i in hits
    {
      MatchObject(m, base, stackSize, shift, pattern, i, obj);
      FoundMatch(m, base, stackSize, shift, pattern, i);
    }
    if hits != [] {
      assert hits[0] in hits;
      FoundMatch(m, base, stackSize, shift, pattern, hits[0]);
    }
  }

  /** All hits, and what is in them: the matching slots of the scan, ascending, each with its object. */
  lemma AllFound<P, T>(m: Memory<P, T>, base: u32, stackSize: u32, shift: u32, pattern: P)
    ensures var slots := Hits(m, base, shift, pattern, SlotsBelow(Limit(stackSize)));
            var objs := Objects(m, base, slots);
            && |objs| == |slots|
            && (forall k :: 0 <= k < |slots| ==> Matches(m, base, stackSize, shift, pattern, slots[k], objs[k]))
            && (forall k, l :: 0 <= k < l < |slots| ==> slots[k] < slots[l])
            && (forall i: nat, o: u32 :: Matches(m, base, stackSize, shift, pattern, i, o) ==> i in slots)
  {
    var n := SlotsBelow(Limit(stackSize));
    var slots := Hits(m, base, shift, pattern, n);
    HitsAreExact(m, base, shift, pattern, n);
    forall k | 0 <= k < |slots|
      ensures Matches(m, base, stackSize, shift, pattern, slots[k], Objects(m, base, slots)[k])
    {
      assert slots[k] in slots;
      FoundMatch(m, base, stackSize, shift, pattern, slots[k]);
      ObjectsAt(m, base, slots, k);
    }
    forall i: nat, o: u32 | Matches(m, base, stackSize, shift, pattern, i, o)
      ensures i in slots
    {
      MatchObject(m, base, stackSize, shift, pattern, i, o);
      FoundMatch(m, base, stackSize, shift, pattern, i);
    }
  }

  class ProcessAnalyzer<P(==), T> {
    const memory: Memory<P, T>
    var processSet: bool
    var objectStackAddress: u32
    var objectStackSize: u32

    constructor (memory: Memory<P, T>)
      ensures this.memory == memory && !processSet && objectStackSize == 0 && objectStackAddress == 0
    {
      this.memory := memory;
      processSet, objectStackAddress, objectStackSize := false, 0, 0;
    }

    /** Slots holding the pattern, as far as a scan goes. */
    function Found(shift: u32, pattern: P): seq<nat>
      reads this
    {
      if processSet
      then Hits(memory, objectStackAddress, shift, pattern, SlotsBelow(Limit(objectStackSize)))
      else []
    }

    /** The slot a first-match scan stops at, with the number of slots if it stops nowhere. The two
        GUID scans and the pattern scan differ only in what they return for it. */
    method ScanFirst(shift: u32, pattern: P) returns (slot: Option<nat>)
      requires processSet
      ensures slot == if Found(shift, pattern) == [] then None else Some(Found(shift, pattern)[0])
    {
      var limit := Limit(objectStackSize);
      ghost var n := SlotsBelow(limit);
      var offset, i := 0, 0;
      while offset < limit
        invariant offset == i * OBJECT_PTR_SIZE && 0 <= i <= n
        invariant Hits(memory, objectStackAddress, shift, pattern, i) == []
      {
        var objAddrs := memory.word(Add32(objectStackAddress, offset));
        if objAddrs != 0 && memory.pattern(Add32(objAddrs, shift)) == pattern {
          assert Hits(memory, objectStackAddress, shift, pattern, i + 1) == [i];
          HitsPrefix(memory, objectStackAddress, shift, pattern, i + 1, n);
          return Some(i);
        }
        offset, i := offset + OBJECT_PTR_SIZE, i + 1;
      }
      return None;
    }

    /** `findGameObjByGUID` and `findGameObjByPattern`: the head of the all-matches scan, or 0. */
    method FindGameObj(shift: u32, pattern: P) returns (obj: u32)
      ensures obj == if Found(shift, pattern) == [] then 0
                     else Objects(memory, objectStackAddress, Found(shift, pattern))[0]
      ensures obj == 0 <==> Found(shift, pattern) == []
      ensures obj != 0 ==> exists i: nat ::
                && Matches(memory, objectStackAddress, objectStackSize, shift, pattern, i, obj)
                && forall j: nat, o: u32 :: j < i ==>
                     !Matches(memory, objectStackAddress, objectStackSize, shift, pattern, j, o)
      ensures processSet && obj == 0 ==> forall j: nat, o: u32 ::
                !Matches(memory, objectStackAddress, objectStackSize, shift, pattern, j, o)
    {
      if !processSet {
        return 0;
      }
      HitsAreExact(memory, objectStackAddress, shift, pattern, SlotsBelow(Limit(objectStackSize)));
      FirstFound(memory, objectStackAddress, objectStackSize, shift, pattern);
      var slot := ScanFirst(shift, pattern);
      if slot == None {
        return 0;
      }
      assert slot.value in Found(shift, pattern);
      ObjectsAt(memory, objectStackAddress, Found(shift, pattern), 0);
      return memory.word(SlotAddress(objectStackAddress, slot.value));
    }

    /** `findGameObjStackByPtrGUID`: the address of the slot whose object the other scan returns. */
    method FindGameObjStack(shift: u32, pattern: P) returns (address: u32)
      ensures address == if Found(shift, pattern) == [] then 0
                         else SlotAddress(objectStackAddress, Found(shift, pattern)[0])
      ensures Found(shift, pattern) != []
          ==> memory.word(address) == Objects(memory, objectStackAddress, Found(shift, pattern))[0]
      ensures Found(shift, pattern) != [] ==> exists i: nat ::
                && Matches(memory, objectStackAddress, objectStackSize, shift, pattern, i, memory.word(address))
                && address == (objectStackAddress + i * 0x14) % 0x1_0000_0000
    {
      if !processSet {
        return 0;
      }
      var slot := ScanFirst(shift, pattern);
      if slot == None {
        return 0;
      }
      ObjectsAt(memory, objectStackAddress, Found(shift, pattern), 0);
      FirstFound(memory, objectStackAddress, objectStackSize, shift, pattern);
      return SlotAddress(objectStackAddress, slot.value);
    }

    /** `findAllGameObjByPattern`. */
    method FindAllGameObj(shift: u32, pattern: P) returns (gameObjs: seq<u32>)
      ensures gameObjs == Objects(memory, objectStackAddress, Found(shift, pattern))
    {
      if !processSet {
        return [];
      }
      gameObjs := ScanAll(memory, objectStackAddress, Limit(objectStackSize), shift, pattern);
    }

    /** `findReadAllGameObjByPattern`: what lies at a shift from each object the other scan returns. */
    method FindReadAllGameObj(shift: u32, pattern: P, readShift: u32) returns (values: seq<T>)
      ensures values == Values(memory, readShift, Objects(memory, objectStackAddress, Found(shift, pattern)))
    {
      if !processSet {
        return [];
      }
      values := ScanReadAll(memory, objectStackAddress, Limit(objectStackSize), shift, pattern, readShift);
    }
  }

  function Values<P, T>(m: Memory<P, T>, readShift: u32, objs: seq<u32>): (r: seq<T>)
    ensures |r| == |objs|
    ensures forall k :: 0 <= k < |objs| ==> r[k] == m.value((objs[k] + readShift) % 0x1_0000_0000)
  {
    if objs == [] then []
    else Values(m, readShift, objs[..|objs| - 1]) + [m.value(Add32(objs[|objs| - 1], readShift))]
  }

  /** One probe of a scanning loop. */
  method Probe<P(==), T>(m: Memory<P, T>, base: u32, i: nat, shift: u32, pattern: P) returns (hit: bool, obj: u32)
    ensures hit == Hit(m, base, shift, pattern, i) && obj == m.word(SlotAddress(base, i))
  {
    obj := m.word(Add32(base, i * OBJECT_PTR_SIZE));
    hit := obj != 0 && m.pattern(Add32(obj, shift)) == pattern;
  }

  /** The loop of the all-matches scan; `i` numbers the offset `i * OBJECT_PTR_SIZE`. */
  method ScanAll<P(==), T>(m: Memory<P, T>, base: u32, limit: u32, shift: u32, pattern: P) returns (gameObjs: seq<u32>)
    ensures gameObjs == Objects(m, base, Hits(m, base, shift, pattern, SlotsBelow(limit)))
  {
    ghost var n := SlotsBelow(limit);
    gameObjs := [];
    var i: nat := 0;
    SlotCount(limit, 0);
    while i * OBJECT_PTR_SIZE < limit
      invariant i <= n && (i * OBJECT_PTR_SIZE < limit <==> i < n)
      invariant gameObjs == Objects(m, base, Hits(m, base, shift, pattern, i))
    {
      var hit, objAddrs := Probe(m, base, i, shift, pattern);
      ObjectsOfNextSlot(m, base, shift, pattern, i);
      if hit {
        gameObjs := gameObjs + [objAddrs];
      }
      i := i + 1;
      SlotCount(limit, i);
    }
  }

  /** The loop of the reading scan. */
  method ScanReadAll<P(==), T>(m: Memory<P, T>, base: u32, limit: u32, shift: u32, pattern: P, readShift: u32)
    returns (values: seq<T>)
    ensures values == Values(m, readShift, Objects(m, base, Hits(m, base, shift, pattern, SlotsBelow(limit))))
  {
    ghost var n := SlotsBelow(limit);
    values := [];
    var i: nat := 0;
    SlotCount(limit, 0);
    while i * OBJECT_PTR_SIZE < limit
      invariant i <= n && (i * OBJECT_PTR_SIZE < limit <==> i < n)
      invariant values == Values(m, readShift, Objects(m, base, Hits(m, base, shift, pattern, i)))
    {
      var hit, objAddrs := Probe(m, base, i, shift, pattern);
      ObjectsOfNextSlot(m, base, shift, pattern, i);
      if hit {
        ValuesPush(m, readShift, Objects(m, base, Hits(m, base, shift, pattern, i)), objAddrs);
        values := values + [m.value(Add32(objAddrs, readShift))];
      }
      i := i + 1;
      SlotCount(limit, i);
    }
  }

  lemma ValuesPush<P, T>(m: Memory<P, T>, readShift: u32, objs: seq<u32>, obj: u32)
    ensures Values(m, readShift, objs + [obj]) == Values(m, readShift, objs) + [m.value(Add32(obj, readShift))]
  {
    assert (objs + [obj])[..|objs|] == objs;
  }

  /** While the product does not wrap, the scans cover the stack: an object has the pattern in some
      slot of the stack if and only if the first-match scan returns non-zero, and what it returns
      lies in the first such slot. */
  lemma FirstMatchCoversStack<P, T>(m: Memory<P, T>, base: u32, stackSize: u32, shift: u32, pattern: P)
    requires stackSize * OBJECT_PTR_SIZE < U32_LIMIT
    ensures var hits := Hits(m, base, shift, pattern, SlotsBelow(Limit(stackSize)));
            && (hits != [] <==> exists i: nat :: i < stackSize && Hit(m, base, shift, pattern, i))
            && (hits != [] ==> Hit(m, base, shift, pattern, hits[0])
                               && forall i: nat :: i < hits[0] ==> !Hit(m, base, shift, pattern, i))
  {
    ScansWholeStackExactly(stackSize);
    HitsAreExact(m, base, shift, pattern, stackSize);
    var hits := Hits(m, base, shift, pattern, stackSize);
    assert forall i: nat :: i < stackSize && Hit(m, base, shift, pattern, i) ==> i in hits;
    assert hits != [] ==> hits[0] in hits;
  }
}
