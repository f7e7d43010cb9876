/** `basic_streambuf`: a resizable buffer with get and put cursors, and the bounded byte FIFO it
    is meant to be. Cursors are offsets from the start of the buffer. */
module StreamBuffer {
  import opened Bytes

  const BUFFER_DELTA: nat := 128
  const INT_LIMIT := 0x8000_0000

  /** `static_cast<int>`, as the two bump calls apply it. */
  function ToInt(n: nat): int {
    var m := n % U32_LIMIT;
    if m < INT_LIMIT then m else m - U32_LIMIT
  }

  lemma ToIntExact(n: nat)
    ensures ToInt(n) == n <==> n < INT_LIMIT
  {
  }

  /** Beyond it two's complement. */
  lemma ToIntWraps(n: nat)
    ensures 0 - 0x8000_0000 <= ToInt(n) < 0x8000_0000 && (ToInt(n) - n) % 0x1_0000_0000 == 0
  {
  }

  datatype Buf = Buf(maxSize: nat, data: seq<byte>, gptr: int, egptr: int, pptr: int, epptr: int)

  function Min(a: nat, b: nat): nat {
    if a <= b then a else b
  }

  function AtLeastOne(n: nat): nat {
    if n == 0 then 1 else n
  }

  /** `vector::resize`: cut, or fill with zeros. */
  function Resize(data: seq<byte>, n: nat): (r: seq<byte>)
    ensures |r| == n
    ensures forall i :: 0 <= i < n ==> r[i] == if i < |data| then data[i] else 0
  {
    seq(n, i requires 0 <= i => if i < |data| then data[i] else 0)
  }

  predicate Valid(b: Buf) {
    0 <= b.gptr <= b.egptr <= b.pptr <= b.epptr <= b.maxSize && |b.data| == AtLeastOne(b.epptr)
  }

  /** The input sequence, which `data()` exposes and `size()` measures. */
  function Content(b: Buf): seq<byte>
    requires Valid(b)
  {
    b.data[b.gptr..b.pptr]
  }

  // ---------------------------------------------------------------- the operations

  datatype Result = Done(buf: Buf) | LengthError(buf: Buf)

  function Init(maximumSize: nat): Buf {
    var pend := Min(maximumSize, BUFFER_DELTA);
    Buf(maximumSize, Resize([], AtLeastOne(pend)), 0, 0, 0, pend)
  }

  /** The buffer after `memmove` of the input sequence to its start. */
  function Shifted(b: Buf): (r: seq<byte>)
    requires Valid(b)
    ensures |r| == |b.data| && r[..b.pptr - b.gptr] == Content(b)
  {
    b.data[b.gptr..b.pptr] + b.data[b.pptr - b.gptr..]
  }

  function Reserve(b: Buf, n: nat): Result
    requires Valid(b)
  {
    if n <= b.epptr - b.pptr then Done(b)
    else
      var pnext := b.pptr - b.gptr;
      var data := Shifted(b);
      if n <= b.epptr - pnext then Done(Buf(b.maxSize, data, 0, pnext, pnext, b.epptr))
      else if n <= b.maxSize && pnext <= b.maxSize - n then
        Done(Buf(b.maxSize, Resize(data, AtLeastOne(pnext + n)), 0, pnext, pnext, pnext + n))
      else LengthError(b.(data := data))
  }

  /** The caller fills the start of the output sequence that `prepare` returned. */
  function Fill(b: Buf, bytes: seq<byte>): Buf
    requires Valid(b) && |bytes| <= b.epptr - b.pptr
  {
    b.(data := b.data[..b.pptr] + bytes + b.data[b.pptr + |bytes|..])
  }

  function Commit(b: Buf, n: nat): Buf
    requires Valid(b)
  {
    var pptr := b.pptr + ToInt(Min(n, b.epptr - b.pptr));
    b.(pptr := pptr, egptr := pptr)
  }

  function Consume(b: Buf, n: nat): Buf
    requires Valid(b)
  {
    b.(egptr := b.pptr, gptr := b.gptr + ToInt(if b.gptr + n > b.pptr then b.pptr - b.gptr else n))
  }

  function Underflow(b: Buf): (Buf, Option<byte>)
    requires Valid(b)
  {
    if b.gptr < b.pptr then (b.(egptr := b.pptr), Some(b.data[b.gptr])) else (b, None)
  }

  function Put(b: Buf, c: byte): Buf
    requires Valid(b) && b.pptr < b.epptr
  {
    b.(data := b.data[b.pptr := c], pptr := b.pptr + 1)
  }

  /** How much `overflow` asks for when the output sequence is full. */
  function OverflowReserve(b: Buf): nat
    requires Valid(b)
  {
    var size := b.pptr - b.gptr;
    if size < b.maxSize && b.maxSize - size < BUFFER_DELTA then b.maxSize - size else BUFFER_DELTA
  }

  /** `None` stands for the end-of-file argument. */
  function Overflow(b: Buf, c: Option<byte>): Result
    requires Valid(b)
  {
    if c == None then Done(b)
    else
      match (if b.pptr == b.epptr then Reserve(b, OverflowReserve(b)) else Done(b))
      case LengthError(t) => LengthError(t)
      case Done(t) =>
        ReserveRoom(b, OverflowReserve(b));
        Done(Put(t, c.value))
  }

  // ---------------------------------------------------------------- one operation at a time

  /** `prepare(n)` throws exactly when size() + n > max_size(). Otherwise there is room for `n`
      bytes, the cursors stay ordered, and neither compaction nor growth changes the content. */
  lemma ReserveRoom(b: Buf, n: nat)
    requires Valid(b)
    ensures Reserve(b, n).LengthError? <==> |Content(b)| + n > b.maxSize
    ensures Reserve(b, n).Done? ==>
      var t := Reserve(b, n).buf;
      Valid(t) && Content(t) == Content(b) && t.maxSize == b.maxSize && n <= t.epptr - t.pptr
  {
    var r := Reserve(b, n);
    if r.Done? && !(n <= b.epptr - b.pptr) {
      var pnext := b.pptr - b.gptr;
      assert Shifted(b)[..pnext] == Content(b);
      assert r.buf.data[..pnext] == Shifted(b)[..pnext];
    }
  }

  /** A new buffer is empty, and has room for up to 128 bytes. */
  lemma InitRoom(maximumSize: nat)
    ensures var b := Init(maximumSize);
            && Valid(b) && Content(b) == [] && b.gptr == b.egptr == b.pptr == 0
            && b.epptr == (if maximumSize < 128 then maximumSize else 128)
            && forall i :: 0 <= i < |b.data| ==> b.data[i] == 0
  {
  }

  /** What a successful `prepare` does to the layout: nothing if there is room; otherwise the content
      moves to the front, and the buffer grows to just what is asked for if that is still not enough. */
  lemma ReserveLayout(b: Buf, n: nat)
    requires Valid(b) && Reserve(b, n).Done?
    ensures var t, size := Reserve(b, n).buf, b.pptr - b.gptr;
            if n <= b.epptr - b.pptr then t == b
            else && t.gptr == 0 && t.egptr == t.pptr == size && t.maxSize == b.maxSize
                 && t.epptr == if size + n <= b.epptr then b.epptr else size + n
  {
  }

  /** Both bump calls bring the get end up to the put pointer. */
  lemma GetEndCatchesUp(b: Buf, n: nat)
    requires Valid(b)
    ensures Commit(b, n).egptr == Commit(b, n).pptr && Consume(b, n).egptr == Consume(b, n).pptr == b.pptr
    ensures Commit(b, n).gptr == b.gptr && Commit(b, n).data == b.data == Consume(b, n).data
    ensures Commit(b, n).epptr == b.epptr == Consume(b, n).epptr
  {
  }

  /** `overflow` grows by 128 bytes, or to the capacity if that is nearer. */
  lemma OverflowGrowth(b: Buf, c: byte)
    requires Valid(b) && b.pptr == b.epptr && |Content(b)| < b.maxSize
    ensures var step := if b.maxSize - |Content(b)| < 128 then b.maxSize - |Content(b)| else 128;
            && Reserve(b, step).Done?
            && Overflow(b, Some(c)) == Done(Put(Reserve(b, step).buf, c))
  {
    ReserveRoom(b, OverflowReserve(b));
  }

  /** A failed `prepare` keeps the cursors but may already have moved the bytes under them. */
  lemma FailedReserveKeepsCursors(b: Buf, n: nat)
    requires Valid(b) && Reserve(b, n).LengthError?
    ensures Reserve(b, n).buf == b.(data := Shifted(b))
    ensures b.gptr == 0 ==> Reserve(b, n).buf == b
  {
    if b.gptr == 0 {
      assert Shifted(b) == b.data;
    }
  }

  /** `c` agrees with itself `d` places on. */
  predicate Repeats(c: seq<byte>, d: nat) {
    forall i :: 0 <= i && i + d < |c| ==> c[i] == c[i + d]
  }

  /** What a failed `prepare` leaves: a valid buffer, whose content is the old one if and only if
      that repeats with the length of the consumed part in front of it. Otherwise there is no strong
      exception guarantee. */
  lemma FailedReserveExactly(b: Buf, n: nat)
    requires Valid(b) && Reserve(b, n).LengthError?
    ensures Valid(Reserve(b, n).buf)
    ensures Content(Reserve(b, n).buf) == Content(b) <==> Repeats(Content(b), b.gptr)
  {
    var c, d := Content(b), b.gptr;
    var after := Content(Reserve(b, n).buf);
    assert |after| == |c|;
    forall i | 0 <= i < |c|
      ensures after[i] == if i + d < |c| then c[i + d] else c[i]
    {
      assert after[i] == Shifted(b)[i + d];
    }
    if after == c {
      forall i | 0 <= i && i + d < |c|
        ensures c[i] == c[i + d]
      {
        assert after[i] == c[i + d];
      }
    }
  }

  /** So nothing is lost where nothing was consumed, or no more is left than was consumed. */
  lemma FailedReserveHarmless(b: Buf, n: nat)
    requires Valid(b) && Reserve(b, n).LengthError?
    requires b.gptr == 0 || |Content(b)| <= b.gptr
    ensures Valid(Reserve(b, n).buf) && Content(Reserve(b, n).buf) == Content(b)
  {
    FailedReserveExactly(b, n);
  }

  /** `overflow` of a character throws exactly when size() == max_size(); otherwise it appends it. */
  lemma OverflowAppends(b: Buf, c: byte)
    requires Valid(b)
    ensures Overflow(b, Some(c)).LengthError? <==> |Content(b)| == b.maxSize
    ensures Overflow(b, Some(c)).Done? ==>
      var t := Overflow(b, Some(c)).buf;
      Valid(t) && Content(t) == Content(b) + [c] && t.maxSize == b.maxSize
  {
    ReserveRoom(b, OverflowReserve(b));
    if b.pptr < b.epptr {
      PutAppends(b, c);
    } else if Reserve(b, OverflowReserve(b)).Done? {
      PutAppends(Reserve(b, OverflowReserve(b)).buf, c);
    }
  }

  lemma PutAppends(b: Buf, c: byte)
    requires Valid(b) && b.pptr < b.epptr
    ensures Valid(Put(b, c)) && Content(Put(b, c)) == Content(b) + [c]
  {
  }

  /** `commit(n)` moves the first min(n, room) bytes of the output sequence to the input sequence
      if and only if that many fit an `int`. */
  lemma CommitAppends(b: Buf, n: nat)
    requires Valid(b)
    ensures var k := Min(n, b.epptr - b.pptr);
            var t := Commit(b, n);
            (Valid(t) && Content(t) == Content(b) + b.data[b.pptr..b.pptr + k]) <==> k < INT_LIMIT
  {
    var k := Min(n, b.epptr - b.pptr);
    var t := Commit(b, n);
    ToIntExact(k);
    if k < INT_LIMIT {
      assert b.data[b.gptr..b.pptr + k] == b.data[b.gptr..b.pptr] + b.data[b.pptr..b.pptr + k];
    } else if Valid(t) {
      assert |Content(t)| == t.pptr - b.gptr != |Content(b)| + k;
    }
  }

  /** `consume(n)` drops the first min(n, size()) bytes if and only if that many fit an `int`. */
  lemma ConsumeDrops(b: Buf, n: nat)
    requires Valid(b)
    ensures var k := Min(n, |Content(b)|);
            var t := Consume(b, n);
            (Valid(t) && Content(t) == Content(b)[k..]) <==> k < INT_LIMIT
  {
    var k := Min(n, |Content(b)|);
    ToIntExact(k);
    if Valid(Consume(b, n)) && k >= INT_LIMIT {
      assert |Content(Consume(b, n))| == b.pptr - b.gptr - ToInt(k) != |Content(b)| - k;
    }
  }

  lemma UnderflowPeeks(b: Buf)
    requires Valid(b)
    ensures var (t, c) := Underflow(b);
            && Valid(t) && Content(t) == Content(b) && t.maxSize == b.maxSize
            && c == (if Content(b) == [] then None else Some(Content(b)[0]))
            && (c.Some? ==> t.egptr == t.pptr)
  {
  }

  lemma FillKeepsContent(b: Buf, bytes: seq<byte>)
    requires Valid(b) && |bytes| <= b.epptr - b.pptr
    ensures var t := Fill(b, bytes);
            Valid(t) && Content(t) == Content(b) && t.data[t.pptr..t.pptr + |bytes|] == bytes
  {
  }

  /** prepare, fill, commit: exactly the filled bytes are appended. */
  lemma PrepareFillCommit(b: Buf, n: nat, bytes: seq<byte>)
    requires Valid(b) && |Content(b)| + n <= b.maxSize && |bytes| <= n && |bytes| < INT_LIMIT
    ensures Reserve(b, n).Done? && Valid(Reserve(b, n).buf)
    ensures |bytes| <= Reserve(b, n).buf.epptr - Reserve(b, n).buf.pptr
    ensures var t := Commit(Fill(Reserve(b, n).buf, bytes), |bytes|);
            Valid(t) && Content(t) == Content(b) + bytes
  {
    ReserveRoom(b, n);
    var r := Reserve(b, n).buf;
    FillKeepsContent(r, bytes);
    CommitAppends(Fill(r, bytes), |bytes|);
  }

  // ---------------------------------------------------------------- runs

  datatype Op =
    | Prepare(n: nat)
    | Write(bytes: seq<byte>)
    | CommitOp(n: nat)
    | ConsumeOp(n: nat)
    | UnderflowOp
    | OverflowOp(c: Option<byte>)

  /** A buffer together with all bytes ever moved into and out of its input sequence. */
  datatype History = History(buf: Buf, appended: seq<byte>, consumed: seq<byte>)

  /** The operation is within its contract: writes stay in the output sequence, bumps fit an `int`
      and nothing throws. */
  predicate Succeeds(b: Buf, op: Op)
    requires Valid(b)
  {
    match op
    case Prepare(n) => Reserve(b, n).Done?
    case Write(bytes) => |bytes| <= b.epptr - b.pptr
    case CommitOp(n) => Min(n, b.epptr - b.pptr) < INT_LIMIT
    case ConsumeOp(n) => Min(n, |Content(b)|) < INT_LIMIT
    case UnderflowOp => true
    case OverflowOp(c) => Overflow(b, c).Done?
  }

  function Perform(h: History, op: Op): History
    requires Valid(h.buf) && Succeeds(h.buf, op)
  {
    var b := h.buf;
    match op
    case Prepare(n) => h.(buf := Reserve(b, n).buf)
    case Write(bytes) => h.(buf := Fill(b, bytes))
    case CommitOp(n) =>
      var k := Min(n, b.epptr - b.pptr);
      h.(buf := Commit(b, n), appended := h.appended + b.data[b.pptr..b.pptr + k])
    case ConsumeOp(n) =>
      h.(buf := Consume(b, n), consumed := h.consumed + Content(b)[..Min(n, |Content(b)|)])
    case UnderflowOp => h.(buf := Underflow(b).0)
    case OverflowOp(c) =>
      h.(buf := Overflow(b, c).buf, appended := h.appended + if c.Some? then [c.value] else [])
  }

  /** The buffer is a FIFO of what went in and has not come out. */
  predicate Fifo(h: History) {
    Valid(h.buf) && h.consumed + Content(h.buf) == h.appended
  }

  lemma PerformKeepsFifo(h: History, op: Op)
    requires Fifo(h) && Succeeds(h.buf, op)
    ensures Fifo(Perform(h, op)) && Perform(h, op).buf.maxSize == h.buf.maxSize
  {
    var b := h.buf;
    match op
    case Prepare(n) => ReserveRoom(b, n);
    case Write(bytes) => FillKeepsContent(b, bytes);
    case CommitOp(n) =>
      CommitAppends(b, n);
      ConcatAssociates(h.consumed, Content(b), b.data[b.pptr..b.pptr + Min(n, b.epptr - b.pptr)]);
    case ConsumeOp(n) =>
      ConsumeDrops(b, n);
      var k := Min(n, |Content(b)|);
      assert Content(b) == Content(b)[..k] + Content(b)[k..];
      ConcatAssociates(h.consumed, Content(b)[..k], Content(b)[k..]);
    case UnderflowOp => UnderflowPeeks(b);
    case OverflowOp(c) =>
      if c.Some? {
        OverflowAppends(b, c.value);
        ConcatAssociates(h.consumed, Content(b), [c.value]);
      } else {
        assert h.appended + [] == h.appended;
      }
  }

  function Runs(maximumSize: nat, ops: seq<Op>): Option<History> {
    if ops == [] then Some(History(Init(maximumSize), [], []))
    else
      var op := ops[|ops| - 1];
      match Runs(maximumSize, ops[..|ops| - 1])
      case None => None
      case Some(h) => if Valid(h.buf) && Succeeds(h.buf, op) then Some(Perform(h, op)) else None
  }

  /** Over every successful run: the bytes consumed, followed by the content, are the bytes
      appended, in order; the cursors stay ordered within the buffer; and size() <= max_size(). */
  lemma {:induction false} RunIsFifo(maximumSize: nat, ops: seq<Op>)
    requires Runs(maximumSize, ops).Some?
    ensures var h := Runs(maximumSize, ops).value;
            && Fifo(h) && h.consumed <= h.appended
            && h.buf.maxSize == maximumSize && |Content(h.buf)| <= maximumSize
  {
    if ops == [] {
      var h := History(Init(maximumSize), [], []);
      assert Content(h.buf) == [];
    } else {
      RunIsFifo(maximumSize, ops[..|ops| - 1]);
      PerformKeepsFifo(Runs(maximumSize, ops[..|ops| - 1]).value, ops[|ops| - 1]);
    }
  }

  lemma RunsPush(maximumSize: nat, ops: seq<Op>, op: Op)
    requires Runs(maximumSize, ops).Some?
    requires Valid(Runs(maximumSize, ops).value.buf) && Succeeds(Runs(maximumSize, ops).value.buf, op)
    ensures Runs(maximumSize, ops + [op]) == Some(Perform(Runs(maximumSize, ops).value, op))
  {
    assert (ops + [op])[..|ops|] == ops;
  }

  /** The run of a buffer for `m` bytes that is filled and committed whole. */
  lemma FilledRun(m: nat, bytes: seq<byte>, ops: seq<Op>)
    requires m == |bytes| <= BUFFER_DELTA && m != 0 && ops == [Write(bytes), CommitOp(m)]
    ensures Runs(m, ops) == Some(History(Buf(m, bytes, 0, m, m, m), bytes, []))
  {
    assert ops[..1] == [] + [Write(bytes)] && ops == ops[..1] + [CommitOp(m)];
    RunsPush(m, [], Write(bytes));
    assert Fill(Init(m), bytes).data == bytes;
    RunsPush(m, ops[..1], CommitOp(m));
    assert [] + bytes[0..m] == bytes;
  }

  lemma FilledThenConsumed(m: nat, bytes: seq<byte>, ops: seq<Op>)
    requires m == |bytes| <= BUFFER_DELTA && m != 0 && ops == [Write(bytes), CommitOp(m), ConsumeOp(1)]
    ensures Runs(m, ops) == Some(History(Buf(m, bytes, 1, m, m, m), bytes, bytes[..1]))
  {
    FilledRun(m, bytes, ops[..2]);
    assert ops == ops[..2] + [ConsumeOp(1)];
    RunsPush(m, ops[..2], ConsumeOp(1));
    assert [] + bytes[0..m][..1] == bytes[..1];
  }

  /** Content is lost in a run too: with room for three bytes, after 1, 5, 2 went in and 1 came out,
      a `prepare(2)` fails and leaves [2, 2] where [5, 2] was. */
  lemma FailedReserveLosesContent(m: nat, bytes: seq<byte>, ops: seq<Op>)
    requires m == 3 && bytes == [1, 5, 2] && ops == [Write(bytes), CommitOp(m), ConsumeOp(1)]
    ensures Runs(m, ops).Some?
    ensures var b := Runs(m, ops).value.buf;
            && Valid(b) && Content(b) == [5, 2]
            && Reserve(b, 2).LengthError? && Valid(Reserve(b, 2).buf) && Content(Reserve(b, 2).buf) == [2, 2]
  {
    FilledThenConsumed(m, bytes, ops);
    assert Shifted(Runs(m, ops).value.buf) == [5, 2, 2];
  }

  /** An operation within its contract fails only for want of room, whatever the buffer's layout:
      below the `int` limit the capacity of the FIFO alone decides. */
  lemma OnlyCapacityFails(b: Buf, op: Op)
    requires Valid(b) && b.maxSize < INT_LIMIT && (op.Write? ==> |op.bytes| <= b.epptr - b.pptr)
    ensures Succeeds(b, op) <==> match op
                                 case Prepare(n) => |Content(b)| + n <= b.maxSize
                                 case OverflowOp(c) => c == None || |Content(b)| < b.maxSize
                                 case _ => true
  {
    match op
    case Prepare(n) => ReserveRoom(b, n);
    case OverflowOp(c) => if c.Some? { OverflowAppends(b, c.value); }
    case _ =>
  }

  // ---------------------------------------------------------------- the object

  class StreamBuf {
    const maxSize: nat
    var buffer: array<byte>
    var gptr: int
    var egptr: int
    var pptr: int
    var epptr: int

    function View(): Buf
      reads this, buffer
    {
      Buf(maxSize, buffer[..], gptr, egptr, pptr, epptr)
    }

    constructor (maximumSize: nat)
      ensures View() == Init(maximumSize) && Valid(View()) && fresh(buffer)
    {
      maxSize := maximumSize;
      var pend := Min(maximumSize, BUFFER_DELTA);
      buffer := new byte[AtLeastOne(pend)](_ => 0);
      gptr, egptr, pptr, epptr := 0, 0, 0, pend;
    }

    method Size() returns (n: nat)
      requires Valid(View())
      ensures n == |Content(View())|
    {
      n := pptr - gptr;
    }

    /** `memmove` of `n` bytes from `from` to the start. */
    method MoveToFront(from: nat, n: nat)
      requires from + n <= buffer.Length
      modifies buffer
      ensures buffer[..] == old(buffer[..])[from..from + n] + old(buffer[..])[n..]
    {
      for i := 0 to n
        invariant forall j :: 0 <= j < i ==> buffer[j] == old(buffer[from + j])
        invariant forall j :: i <= j < buffer.Length ==> buffer[j] == old(buffer[j])
      {
        buffer[i] := buffer[from + i];
      }
    }

    method ResizeBuffer(n: nat)
      modifies this`buffer
      ensures fresh(buffer) && buffer[..] == Resize(old(buffer[..]), n)
    {
      var was := buffer;
      var bigger := new byte[n](_ => 0);
      for i := 0 to n
        invariant forall j :: 0 <= j < i ==> bigger[j] == Resize(was[..], n)[j]
        invariant forall j :: i <= j < n ==> bigger[j] == 0
      {
        if i < was.Length {
          bigger[i] := was[i];
        }
      }
      buffer := bigger;
    }

    /** `reserve`, with `false` for a thrown `length_error`. Natural-number subtraction is checked,
        so no `size_t` difference here wraps. */
    method ReserveSpace(n: nat) returns (ok: bool)
      requires Valid(View())
      modifies this, buffer
      ensures (if ok then Done(View()) else LengthError(View())) == Reserve(old(View()), n)
      ensures buffer == old(buffer) || fresh(buffer)
    {
      var gnext: nat, pnext: nat, pend: nat := gptr, pptr, epptr;
      var room: nat := pend - pnext;
      if n <= room {
        return true;
      }
      ghost var data := Shifted(View());
      if gnext > 0 {
        pnext := pnext - gnext;
        MoveToFront(gnext, pnext);
      }
      assert buffer[..] == data;
      room := pend - pnext;
      if n > room {
        if n <= maxSize && pnext <= maxSize - n {
          pend := pnext + n;
          ResizeBuffer(AtLeastOne(pend));
        } else {
          return false;
        }
      }
      gptr, egptr := 0, pnext;
      pptr, epptr := pnext, pend;
      return true;
    }

    method CommitBytes(n: nat)
      requires Valid(View())
      modifies this
      ensures View() == Commit(old(View()), n) && buffer == old(buffer)
    {
      var k := Min(n, epptr - pptr);
      pptr := pptr + ToInt(k);
      egptr := pptr;
    }

    method ConsumeBytes(n: nat)
      requires Valid(View())
      modifies this
      ensures View() == Consume(old(View()), n) && buffer == old(buffer)
    {
      if egptr < pptr {
        egptr := pptr;
      }
      var k := n;
      if gptr + n > pptr {
        k := pptr - gptr;
      }
      gptr := gptr + ToInt(k);
    }

    method UnderflowChar() returns (c: Option<byte>)
      requires Valid(View())
      modifies this
      ensures (View(), c) == Underflow(old(View())) && buffer == old(buffer)
    {
      if gptr < pptr {
        egptr := pptr;
        return Some(buffer[gptr]);
      }
      return None;
    }

    method PutChar(c: byte)
      requires Valid(View()) && pptr < epptr
      modifies this`pptr, buffer
      ensures View() == Put(old(View()), c)
    {
      buffer[pptr] := c;
      pptr := pptr + 1;
    }

    method OverflowChar(c: Option<byte>) returns (ok: bool)
      requires Valid(View())
      modifies this, buffer
      ensures (if ok then Done(View()) else LengthError(View())) == Overflow(old(View()), c)
    {
      if c == None {
        return true;
      }
      ReserveRoom(View(), OverflowReserve(View()));
      if pptr == epptr {
        var bufferSize: nat := pptr - gptr;
        var wanted := BUFFER_DELTA;
        if bufferSize < maxSize && maxSize - bufferSize < BUFFER_DELTA {
          wanted := maxSize - bufferSize;
        }
        ok := ReserveSpace(wanted);
        if !ok {
          return;
        }
      }
      PutChar(c.value);
      return true;
    }
  }
}
