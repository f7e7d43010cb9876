/** Bytes, fixed-width words and the byte-order conversions of the socket API. */
module Bytes {

  type byte = x: int | 0 <= x < 0x100
  type u16 = x: int | 0 <= x < 0x1_0000
  type u32 = x: int | 0 <= x < 0x1_0000_0000

  const U32_LIMIT := 0x1_0000_0000

  datatype Option<+T> = None | Some(value: T)

  /** Order in which the host lays the bytes of a word out in memory. */
  datatype HostOrder = LittleEndian | BigEndian

  lemma ConcatSplits<T>(a: seq<T>, b: seq<T>)
    ensures |a + b| == |a| + |b| && (a + b)[..|a|] == a && (a + b)[|a|..] == b
  {
  }

  lemma PrefixOfConcat<T>(a: seq<T>, b: seq<T>, k: nat)
    requires |a| <= k <= |a| + |b|
    ensures (a + b)[..k] == a + b[..k - |a|]
  {
  }

  lemma ConcatAssociates<T>(a: seq<T>, b: seq<T>, c: seq<T>)
    ensures (a + b) + c == a + (b + c)
  {
  }

  function Swap16(x: u16): u16 {
    x % 0x100 * 0x100 + x / 0x100
  }

  /** `htons`, which is also `ntohs`. */
  function Htons(host: HostOrder, x: u16): u16 {
    if host == BigEndian then x else Swap16(x)
  }

  function Join(b0: int, b1: int, b2: int, b3: int): int {
    ((b0 * 0x100 + b1) * 0x100 + b2) * 0x100 + b3
  }

  /** Network order: most significant byte first. */
  function Big32(x: u32): (b: seq<byte>)
    ensures |b| == 4
  {
    [x / 0x100 / 0x100 / 0x100, x / 0x100 / 0x100 % 0x100, x / 0x100 % 0x100, x % 0x100]
  }

  function FromBig32(b: seq<byte>): u32
    requires |b| == 4
  {
    Join(b[0], b[1], b[2], b[3])
  }

  function Reverse4(b: seq<byte>): seq<byte>
    requires |b| == 4
  {
    [b[3], b[2], b[1], b[0]]
  }

  /** The four bytes a host keeps in memory for a 32-bit word, and the word it reads from them. */
  function Store32(host: HostOrder, x: u32): seq<byte> {
    if host == BigEndian then Big32(x) else Reverse4(Big32(x))
  }

  function Load32(host: HostOrder, b: seq<byte>): u32
    requires |b| == 4
  {
    if host == BigEndian then FromBig32(b) else FromBig32(Reverse4(b))
  }

  /** `htonl`, which is also `ntohl`: a byte swap on a little-endian host only. */
  function Htonl(host: HostOrder, x: u32): u32 {
    if host == BigEndian then x else FromBig32(Reverse4(Big32(x)))
  }

  lemma Swap16Involutive(x: u16)
    ensures Swap16(Swap16(x)) == x
  {
    var high, low := x / 0x100, x % 0x100;
    assert Swap16(x) == low * 0x100 + high;
    assert Swap16(x) / 0x100 == low && Swap16(x) % 0x100 == high;
  }

  /** Swapping the bytes of a port is harmless exactly when its two bytes are equal. */
  lemma Swap16Fixed(x: u16)
    ensures Swap16(x) == x <==> x / 0x100 == x % 0x100
  {
  }

  lemma Big32Inverse(x: u32)
    ensures FromBig32(Big32(x)) == x
  {
  }

  /** Most significant byte first. */
  lemma Big32Places(x: u32)
    ensures var b := Big32(x); x == b[0] as int * 0x100_0000 + b[1] as int * 0x1_0000 + b[2] as int * 0x100 + b[3]
  {
    var y := x / 0x100;
    assert x == 0x100 * y + x % 0x100 && y == 0x100 * (y / 0x100) + y % 0x100;
  }

  lemma FromBig32Inverse(b: seq<byte>)
    requires |b| == 4
    ensures Big32(FromBig32(b)) == b
  {
    var x := FromBig32(b);
    assert x / 0x100 == (b[0] as int * 0x100 + b[1]) * 0x100 + b[2] && x % 0x100 == b[3];
    assert x / 0x100 / 0x100 == b[0] as int * 0x100 + b[1] && x / 0x100 % 0x100 == b[2];
  }

  /** A length put on the wire through `htonl` is big-endian whatever the sender's order, and a
      receiver of either order reads the same length back through `ntohl`. */
  lemma LengthCrossesHosts(sender: HostOrder, receiver: HostOrder, x: u32)
    ensures var w := Store32(sender, Htonl(sender, x));
            && w == Big32(x) && x == w[0] as int * 0x100_0000 + w[1] as int * 0x1_0000 + w[2] as int * 0x100 + w[3]
            && Htonl(receiver, Load32(receiver, w)) == x
  {
    var b := Big32(x);
    Big32Places(x);
    FromBig32Inverse(Reverse4(b));
    Big32Inverse(x);
    assert Reverse4(Reverse4(b)) == b;
  }
}
