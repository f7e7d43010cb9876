/** The aligned allocation of `any_completion_handler_impl`: the offset to the block's base is kept
    behind the user's bytes. Addresses and sizes are 64-bit. */
module AlignedAlloc {
  import opened Bytes

  const SIZE_LIMIT := 0x1_0000_0000_0000_0000
  const CELL := 8

  // ---------------------------------------------------------------- the offset cell

  function Pow256(k: nat): nat {
    if k == 0 then 1 else 0x100 * Pow256(k - 1)
  }

  function LittleBytes(n: nat, k: nat): (b: seq<byte>)
    ensures |b| == k
    decreases k, n
  {
    if k == 0 then [] else [n % 0x100] + LittleBytes(n / 0x100, k - 1)
  }

  function FromLittle(b: seq<byte>): nat {
    if b == [] then 0 else b[0] as int + 0x100 * FromLittle(b[1..])
  }

  lemma {:induction false} CellRoundTrip(n: nat, k: nat)
    requires n < Pow256(k)
    ensures FromLittle(LittleBytes(n, k)) == n
  {
    if k > 0 {
      CellRoundTrip(n / 0x100, k - 1);
      assert LittleBytes(n, k)[1..] == LittleBytes(n / 0x100, k - 1);
    }
  }

  lemma EightBytes()
    ensures Pow256(CELL) == SIZE_LIMIT
  {
    assert Pow256(4) == 0x1_0000_0000;
    assert Pow256(8) == 0x1_0000_0000 * 0x1_0000_0000;
  }

  // ---------------------------------------------------------------- alignment

  /** Distance from an address to the next multiple of `align`. */
  function Offset(base: nat, align: nat): (off: nat)
    requires align > 0
    ensures off < align
  {
    (align - base % align) % align
  }

  lemma OffsetAligns(base: nat, align: nat)
    requires align > 0
    ensures (base + Offset(base, align)) % align == 0
  {
    var r := base % align;
    var q := base / align;
    assert base == align * q + r;
    if r == 0 {
      assert Offset(base, align) == 0;
    } else {
      assert Offset(base, align) == align - r by { SmallMod(align - r, align); }
      assert base + Offset(base, align) == align * (q + 1);
      MultipleMod(q + 1, align);
    }
  }

  lemma SmallMod(x: nat, m: nat)
    requires x < m
    ensures x % m == x
  {
  }

  lemma MultipleMod(q: nat, m: nat)
    requires m > 0
    ensures (m * q) % m == 0
  {
    if q > 0 {
      MultipleMod(q - 1, m);
      assert m * q == m * (q - 1) + m;
      assert (m * (q - 1) + m) % m == (m * (q - 1)) % m by { AddModulus(m * (q - 1), m); }
    }
  }

  lemma AddModulus(x: nat, m: nat)
    requires m > 0
    ensures (x + m) % m == x % m
  {
    var q, r := x / m, x % m;
    assert x + m == (q + 1) * m + r;
    DivModUnique(x + m, m, q + 1, r);
  }

  lemma AtLeastFactor(d: int, m: nat)
    requires d >= 1
    ensures d * m >= m
  {
    assert d * m == (d - 1) * m + m;
    assert (d - 1) * m >= 0;
  }

  lemma DivModUnique(x: nat, m: nat, q: nat, r: nat)
    requires m > 0 && x == q * m + r && r < m
    ensures x % m == r
  {
    var q', r' := x / m, x % m;
    QuotientUnique(m, q, r, q', r');
  }

  lemma QuotientUnique(m: nat, q: nat, r: nat, q': nat, r': nat)
    requires r < m && r' < m && q * m + r == q' * m + r'
    ensures r == r'
  {
    var d := q - q';
    assert d * m == q * m - q' * m;
    if d >= 1 {
      AtLeastFactor(d, m);
    } else if d <= -1 {
      AtLeastFactor(-d, m);
    }
  }

  // ---------------------------------------------------------------- sizes

  /** `space`, and the number of bytes asked of the inner allocator, as `size_t` computes them. */
  function Space(size: nat, align: nat): int {
    (size + align - 1) % SIZE_LIMIT
  }

  function Request(size: nat, align: nat): int {
    (Space(size, align) + CELL) % SIZE_LIMIT
  }

  /** `std::align` finds room for `size` aligned bytes in the space. */
  predicate Aligns(base: nat, size: nat, align: nat)
    requires align > 0
  {
    size + Offset(base, align) <= Space(size, align)
  }

  /** The user's bytes and the offset cell lie in the block, for every base, if and only if the sum
      of size, alignment and cell does not wrap. When only the cell makes it wrap, the alignment
      still succeeds. */
  lemma CellInBlockExactly(base: nat, size: nat, align: nat)
    requires 0 < align < SIZE_LIMIT && size < SIZE_LIMIT
    ensures Aligns(base, size, align) && Offset(base, align) + size + CELL <= Request(size, align)
       <==> size + align - 1 + CELL < SIZE_LIMIT
    ensures Aligns(base, size, align) <==> size + align - 1 < SIZE_LIMIT
  {
    var sum := size + align - 1;
    if sum < SIZE_LIMIT {
      assert Space(size, align) == sum;
    } else {
      assert Space(size, align) == sum - SIZE_LIMIT;
    }
  }

  // ---------------------------------------------------------------- allocate and deallocate

  /** A block of the inner allocator: an address and its bytes. */
  datatype Block = Block(base: nat, bytes: array<byte>)

  /** `allocate`: the user's pointer, or none for `bad_alloc`. The inner allocator's answer is the
      parameter `block`. A request whose size wraps only by the cell is not granted. */
  method Allocate(block: Block, size: nat, align: nat) returns (p: Option<nat>)
    requires 0 < align < SIZE_LIMIT && block.base < SIZE_LIMIT && size < SIZE_LIMIT
    requires size + align - 1 + CELL < SIZE_LIMIT || size + align - 1 >= SIZE_LIMIT
    requires block.bytes.Length == Request(size, align)
    modifies block.bytes
    ensures p.Some? <==> size + align - 1 + CELL < SIZE_LIMIT
    ensures p.Some? ==> p.value % align == 0 && p.value - block.base < align && CellHolds(block, p.value, size)
    ensures p == None ==> block.bytes[..] == old(block.bytes[..])
  {
    CellInBlockExactly(block.base, size, align);
    var off := Offset(block.base, align);
    var space := Space(size, align);
    if size + off > space {
      return None;
    }
    OffsetAligns(block.base, align);
    WriteCell(block, off + size, LittleBytes(off, CELL));
    return Some(block.base + off);
  }

  /** `memcpy` of the offset behind the user's bytes. */
  method WriteCell(block: Block, at: nat, cell: seq<byte>)
    requires |cell| == CELL && at + CELL <= block.bytes.Length
    modifies block.bytes
    ensures block.bytes[at..at + CELL] == cell
  {
    for i := 0 to CELL
      invariant block.bytes[at..at + i] == cell[..i]
    {
      block.bytes[at + i] := cell[i];
      assert block.bytes[at..at + i + 1] == block.bytes[at..at + i] + [cell[i]];
    }
  }

  /** The cell behind the user's bytes still holds the offset of `p`. */
  predicate CellHolds(block: Block, p: nat, size: nat)
    reads block.bytes
  {
    block.base <= p && p + size + CELL <= block.base + block.bytes.Length
    && var at := p - block.base + size;
       block.bytes[at..at + CELL] == LittleBytes(p - block.base, CELL)
  }

  /** Whatever the user writes to the bytes it asked for leaves the cell alone. */
  method UserWrite(block: Block, p: nat, size: nat, i: nat, value: byte)
    requires CellHolds(block, p, size) && i < size
    modifies block.bytes
    ensures CellHolds(block, p, size)
  {
    ghost var at := p - block.base + size;
    ghost var cell := block.bytes[at..at + CELL];
    block.bytes[p - block.base + i] := value;
    assert block.bytes[at..at + CELL] == cell;
  }

  /** `deallocate`: hands the inner allocator exactly the base and the size it was asked for. */
  method Deallocate(block: Block, p: nat, size: nat, align: nat) returns (base: int, bytes: nat)
    requires 0 < align && size + align - 1 + CELL < SIZE_LIMIT
    requires CellHolds(block, p, size) && block.bytes.Length == Request(size, align)
    ensures base == block.base && bytes == block.bytes.Length
  {
    RequestIsSum(size, align);
    var off := ReadCell(block.bytes[p - block.base + size..p - block.base + size + CELL], p - block.base);
    base := p - off;
    bytes := size + align - 1 + CELL;
  }

  /** `memcpy` of the cell into an offset. */
  method ReadCell(cell: seq<byte>, ghost off: nat) returns (n: nat)
    requires cell == LittleBytes(off, CELL) && off < SIZE_LIMIT
    ensures n == off
  {
    n := FromLittle(cell);
    OffsetComesBack(off);
  }

  lemma RequestIsSum(size: nat, align: nat)
    requires 0 < align && size + align - 1 + CELL < SIZE_LIMIT
    ensures Request(size, align) == size + align - 1 + CELL
  {
    SmallMod(size + align - 1, SIZE_LIMIT);
    SmallMod(size + align - 1 + CELL, SIZE_LIMIT);
  }

  lemma OffsetComesBack(off: nat)
    requires off < SIZE_LIMIT
    ensures FromLittle(LittleBytes(off, CELL)) == off
  {
    EightBytes();
    CellRoundTrip(off, CELL);
  }
}
