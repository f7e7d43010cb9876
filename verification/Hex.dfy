/** The hexadecimal helpers: base16 in lower case. */
module Hex {
  import opened Bytes

  function Digit(n: int): char
    requires 0 <= n < 16
  {
    if n < 10 then ('0' as int + n) as char else ('a' as int + n - 10) as char
  }

  /** The value `strtol` gives a character in base 16, if it is a digit. */
  function DigitValue(c: char): Option<int> {
    if '0' <= c <= '9' then Some(c as int - '0' as int)
    else if 'a' <= c <= 'f' then Some(c as int - 'a' as int + 10)
    else if 'A' <= c <= 'F' then Some(c as int - 'A' as int + 10)
    else None
  }

  lemma DigitsDiffer(n: int)
    requires 0 <= n < 16
    ensures DigitValue(Digit(n)) == Some(n) && LowerDigit(Digit(n))
  {
  }

  const LOWER := "0123456789abcdef"
  const UPPER := "0123456789ABCDEF"

  /** Exactly the sixteen digits of either case have a value, their place in the alphabet. */
  lemma DigitValueExactly(c: char, v: int)
    ensures DigitValue(c) == Some(v) <==> 0 <= v < 16 && (c == LOWER[v] || c == UPPER[v])
  {
  }

  predicate LowerDigit(c: char) {
    '0' <= c <= '9' || 'a' <= c <= 'f'
  }

  lemma LowerDigitReads(c: char)
    requires LowerDigit(c)
    ensures DigitValue(c).Some? && 0 <= DigitValue(c).value < 16 && Digit(DigitValue(c).value) == c
  {
  }

  predicate IsSpace(c: char) {
    c == ' ' || '\t' <= c <= '\r'
  }

  /** The digits a number starts with. */
  function Digits(s: string): nat
    requires |s| <= 2
  {
    if s == [] || DigitValue(s[0]) == None then 0
    else if |s| == 1 || DigitValue(s[1]) == None then DigitValue(s[0]).value
    else DigitValue(s[0]).value * 16 + DigitValue(s[1]).value
  }

  /** `strtol(s, NULL, 16)` on at most two characters: blanks, a sign, then digits; 0 if none. (The
      prefix 0x leaves no digits in two characters, and reads as 0 either way.) */
  function Strtol16(s: string): int
    requires |s| <= 2
  {
    if s == [] then 0
    else if IsSpace(s[0]) then Strtol16(s[1..])
    else if s[0] == '-' then 0 - Digits(s[1..])
    else if s[0] == '+' then Digits(s[1..])
    else Digits(s)
  }

  /** The cast to `char`, as a byte. */
  function ToByte(n: int): byte {
    n % 0x100
  }

  function ByteHex(b: byte): string {
    [Digit(b / 16), Digit(b % 16)]
  }

  function BytesToHex(bytes: seq<byte>): string {
    if bytes == [] then [] else BytesToHex(bytes[..|bytes| - 1]) + ByteHex(bytes[|bytes| - 1])
  }

  function HexToBytes(hex: string): seq<byte> {
    if hex == [] then []
    else if |hex| == 1 then [ToByte(Strtol16(hex))]
    else [ToByte(Strtol16(hex[..2]))] + HexToBytes(hex[2..])
  }

  lemma ByteRoundTrip(b: byte)
    ensures ToByte(Strtol16(ByteHex(b))) == b
  {
    DigitsDiffer(b / 16);
    DigitsDiffer(b % 16);
    assert !IsSpace(Digit(b / 16)) && Digit(b / 16) != '-' && Digit(b / 16) != '+';
  }

  lemma {:induction false} HexToBytesPush(hex: string, b: byte)
    requires |hex| % 2 == 0
    ensures HexToBytes(hex + ByteHex(b)) == HexToBytes(hex) + [b]
    decreases |hex|
  {
    ByteRoundTrip(b);
    if hex == [] {
      assert [] + ByteHex(b) == ByteHex(b);
      assert ByteHex(b)[..2] == ByteHex(b) && ByteHex(b)[2..] == [];
    } else {
      assert (hex + ByteHex(b))[..2] == hex[..2];
      assert (hex + ByteHex(b))[2..] == hex[2..] + ByteHex(b);
      HexToBytesPush(hex[2..], b);
    }
  }

  /** Two digits per byte, the high half first. */
  lemma {:induction false} HexDigits(bytes: seq<byte>, i: nat)
    requires i < |bytes|
    ensures |BytesToHex(bytes)| == 2 * |bytes|
    ensures BytesToHex(bytes)[2 * i] == LOWER[bytes[i] / 16] && BytesToHex(bytes)[2 * i + 1] == LOWER[bytes[i] % 16]
  {
    var init := bytes[..|bytes| - 1];
    HexLength(init);
    if i < |init| {
      HexDigits(init, i);
    }
  }

  lemma {:induction false} HexLength(bytes: seq<byte>)
    ensures |BytesToHex(bytes)| == 2 * |bytes|
  {
    if bytes == [] {
    } else {
      HexLength(bytes[..|bytes| - 1]);
    }
  }

  lemma OneReads(b: char)
    ensures Digits([b]) == Strtol16([b]) == if DigitValue(b).Some? then DigitValue(b).value else 0
  {
    assert [b][1..] == [];
    assert [b][0] == b;
  }

  lemma StrtolPair(a: char, b: char)
    ensures var x, y := DigitValue(a), DigitValue(b);
            Strtol16([a, b])
            == if x.Some? then (if y.Some? then 16 * x.value + y.value else x.value)
               else if y == None then 0
               else if a == '-' then 0 - y.value
               else if a == '+' || a == ' ' || 9 <= a as int <= 13 then y.value
               else 0
  {
    assert [a, b][1..] == [b] && [a, b][0] == a && [a, b][1] == b;
    OneReads(b);
    if IsSpace(a) {
      assert Strtol16([a, b]) == Strtol16([b]);
    } else if a != '-' && a != '+' {
      assert Strtol16([a, b]) == Digits([a, b]);
    }
  }

  lemma ByteOf(v: int)
    ensures 0 <= v < 0x100 ==> ToByte(v) == v
    ensures 0 <= v < 16 ==> ToByte(0 - v) == if v == 0 then 0 else 0x100 - v
  {
  }

  /** What two characters read as, malformed or not: blanks and a sign before the first digit count as
      `strtol` has it, and the value is taken modulo 256. */
  lemma PairReadsExactly(a: char, b: char)
    ensures var x, y := DigitValue(a), DigitValue(b);
            ToByte(Strtol16([a, b]))
            == if x.Some? then (if y.Some? then 16 * x.value + y.value else x.value)
               else if y == None then 0
               else if a == '-' then (if y.value == 0 then 0 else 0x100 - y.value)
               else if a == '+' || a == ' ' || 9 <= a as int <= 13 then y.value
               else 0
  {
    StrtolPair(a, b);
    var x, y := DigitValue(a), DigitValue(b);
    if y.Some? {
      ByteOf(y.value);
    }
    ByteOf(Strtol16([a, b]));
  }

  /** Each byte comes from its own two characters, whatever the others are. */
  lemma {:induction false} HexPairs(hex: string, i: nat)
    requires 2 * i + 1 < |hex|
    ensures i < |HexToBytes(hex)| && HexToBytes(hex)[i] == ToByte(Strtol16([hex[2 * i], hex[2 * i + 1]]))
    decreases |hex|
  {
    if i == 0 {
      assert hex[..2] == [hex[0], hex[1]];
    } else {
      HexPairs(hex[2..], i - 1);
    }
  }

  /** An odd last character reads as its digit, or as 0. */
  lemma {:induction false} OddEndReads(hex: string)
    requires |hex| % 2 == 1
    ensures var last := DigitValue(hex[|hex| - 1]);
            && |HexToBytes(hex)| == |hex| / 2 + 1
            && HexToBytes(hex)[|hex| / 2] == if last.Some? then last.value else 0
    decreases |hex|
  {
    if |hex| == 1 {
      assert hex == [hex[0]];
      OneReads(hex[0]);
    } else {
      OddEndReads(hex[2..]);
    }
  }

  predicate Canonical(hex: string) {
    |hex| % 2 == 0 && forall i :: 0 <= i < |hex| ==> LowerDigit(hex[i])
  }

  lemma CanonicalPush(hex: string, b: byte)
    requires Canonical(hex)
    ensures Canonical(hex + ByteHex(b))
  {
    DigitsDiffer(b / 16);
    DigitsDiffer(b % 16);
  }

  /** Every byte string comes back, and its hex form is an even number of lower-case digits. */
  lemma {:induction false} HexRoundTrip(bytes: seq<byte>)
    ensures HexToBytes(BytesToHex(bytes)) == bytes
    ensures Canonical(BytesToHex(bytes)) && |BytesToHex(bytes)| == 2 * |bytes|
  {
    if bytes == [] {
    } else {
      var init, last := bytes[..|bytes| - 1], bytes[|bytes| - 1];
      HexRoundTrip(init);
      HexToBytesPush(BytesToHex(init), last);
      CanonicalPush(BytesToHex(init), last);
    }
  }

  lemma {:induction false} BytesToHexCons(b: byte, bytes: seq<byte>)
    ensures BytesToHex([b] + bytes) == ByteHex(b) + BytesToHex(bytes)
  {
    if bytes == [] {
      assert [b] + bytes == [b];
      assert BytesToHex([b][..0]) == [];
    } else {
      var init, last := bytes[..|bytes| - 1], bytes[|bytes| - 1];
      assert ([b] + bytes)[..|bytes|] == [b] + init;
      BytesToHexCons(b, init);
      ConcatAssociates(ByteHex(b), BytesToHex(init), ByteHex(last));
    }
  }

  lemma PairReads(a: char, b: char)
    requires LowerDigit(a) && LowerDigit(b)
    ensures ByteHex(ToByte(Strtol16([a, b]))) == [a, b]
  {
    LowerDigitReads(a);
    LowerDigitReads(b);
    var x, y := DigitValue(a).value, DigitValue(b).value;
    assert Digits([a, b]) == x * 16 + y;
    assert Strtol16([a, b]) == x * 16 + y;
    assert ToByte(x * 16 + y) == x * 16 + y;
    assert (x * 16 + y) / 16 == x && (x * 16 + y) % 16 == y;
  }

  /** Of all strings, exactly the even-length ones of lower-case digits are hex forms. */
  lemma HexFormsExactly(hex: string)
    ensures BytesToHex(HexToBytes(hex)) == hex <==> Canonical(hex)
  {
    HexRoundTrip(HexToBytes(hex));
    if Canonical(hex) {
      CanonicalReads(hex);
    }
  }

  lemma {:induction false} CanonicalReads(hex: string)
    requires Canonical(hex)
    ensures BytesToHex(HexToBytes(hex)) == hex
    decreases |hex|
  {
    if hex == [] {
    } else {
      var head, tail := hex[..2], hex[2..];
      assert head == [hex[0], hex[1]];
      PairReads(hex[0], hex[1]);
      CanonicalReads(tail);
      BytesToHexCons(ToByte(Strtol16(head)), HexToBytes(tail));
      assert hex == head + tail;
    }
  }

  method BytesToHexLoop(bytes: seq<byte>) returns (hex: string)
    ensures hex == BytesToHex(bytes)
  {
    hex := [];
    for i := 0 to |bytes|
      invariant hex == BytesToHex(bytes[..i])
    {
      assert bytes[..i + 1][..i] == bytes[..i];
      hex := hex + [Digit(bytes[i] / 16), Digit(bytes[i] % 16)];
    }
    assert bytes[..|bytes|] == bytes;
  }

  method HexToBytesLoop(hex: string) returns (bytes: seq<byte>)
    ensures bytes == HexToBytes(hex)
  {
    bytes := [];
    var i := 0;
    while i < |hex|
      invariant 0 <= i
      invariant bytes + HexToBytes(if i <= |hex| then hex[i..] else []) == HexToBytes(hex)
    {
      var end := if i + 2 <= |hex| then i + 2 else |hex|;
      var byteString := hex[i..end];
      ghost var rest := hex[i..];
      if i + 2 <= |hex| {
        assert rest[..2] == byteString && rest[2..] == hex[i + 2..];
        ConcatAssociates(bytes, [ToByte(Strtol16(byteString))], HexToBytes(hex[i + 2..]));
      } else {
        assert rest == byteString;
      }
      bytes := bytes + [ToByte(Strtol16(byteString))];
      i := i + 2;
    }
  }
}
