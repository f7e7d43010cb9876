/** The encrypted message envelope: its printer, its parser and its size field. */
module Envelope {
  import opened Bytes
  import opened Hex

  datatype MessageType = Greeting | Event | Snap | Unknown

  function TypeName(t: MessageType): string {
    match t
    case Greeting => "GREETING"
    case Event => "EVENT"
    case Snap => "SNAP"
    case Unknown => "UNKNOWN"
  }

  /** The ciphers, as functions of this message's keys: the session key under the recipient's key
      pair, and text under the session key. */
  datatype Ciphers = Ciphers(
    wrap: seq<byte> -> seq<byte>, unwrap: seq<byte> -> seq<byte>,
    encrypt: (string, seq<byte>) -> seq<byte>, decrypt: (seq<byte>, seq<byte>) -> string)

  ghost predicate InversePairs(c: Ciphers) {
    && (forall key :: c.unwrap(c.wrap(key)) == key)
    && (forall text, key :: c.decrypt(c.encrypt(text, key), key) == text)
  }

  // ---------------------------------------------------------------- lines

  /** Index of the first newline, or the length. */
  function LineEnd(s: string): (k: nat)
    ensures k <= |s| && (k < |s| ==> s[k] == '\n')
    ensures forall i :: 0 <= i < k ==> s[i] != '\n'
  {
    if s == [] || s[0] == '\n' then 0 else 1 + LineEnd(s[1..])
  }

  /** What repeated `getline` reads. */
  function Lines(s: string): seq<string>
    decreases |s|
  {
    if s == [] then []
    else if LineEnd(s) == |s| then [s]
    else [s[..LineEnd(s)]] + Lines(s[LineEnd(s) + 1..])
  }

  /** The lines of a text to which a newline is added: there is always a last one. */
  function Split(s: string): (r: seq<string>)
    ensures r != []
    decreases |s|
  {
    if LineEnd(s) == |s| then [s] else [s[..LineEnd(s)]] + Split(s[LineEnd(s) + 1..])
  }

  predicate OneLine(s: string) {
    forall i :: 0 <= i < |s| ==> s[i] != '\n'
  }

  lemma LineEndConcat(line: string, rest: string)
    requires OneLine(line)
    ensures LineEnd(line + ['\n'] + rest) == |line|
  {
    var s := line + ['\n'] + rest;
    assert s[|line|] == '\n';
    assert forall i :: 0 <= i < |line| ==> s[i] == line[i];
  }

  lemma LinesFirst(line: string, rest: string)
    requires OneLine(line)
    ensures Lines(line + ['\n'] + rest) == [line] + Lines(rest)
  {
    var s := line + ['\n'] + rest;
    LineEndConcat(line, rest);
    ConcatSplits(line + ['\n'], rest);
    assert s[..|line|] == line;
  }

  /** A last line counts without a newline, and a last newline starts no further line. */
  lemma LinesEnd(line: string)
    requires OneLine(line)
    ensures Lines(line) == if line == "" then [] else [line]
    ensures Lines(line + ['\n']) == [line]
  {
    LinesFirst(line, []);
    assert line + ['\n'] + [] == line + ['\n'];
    assert [line] + [] == [line];
  }

  lemma Regroup(line: string, more: string, rest: string)
    ensures (line + ['\n'] + more) + ['\n'] + rest == line + ['\n'] + (more + ['\n'] + rest)
  {
    ConcatAssociates(line + ['\n'], more, ['\n']);
    ConcatAssociates(line + ['\n'], more + ['\n'], rest);
  }

  lemma LinesAfter(line: string, more: string, rest: string, lines: seq<string>)
    requires OneLine(line) && Lines(more + ['\n'] + rest) == lines + Lines(rest)
    ensures Lines((line + ['\n'] + more) + ['\n'] + rest) == ([line] + lines) + Lines(rest)
  {
    Regroup(line, more, rest);
    LinesFirst(line, more + ['\n'] + rest);
    ConcatAssociates([line], lines, Lines(rest));
  }

  lemma CutAround(s: string, k: nat)
    requires k < |s|
    ensures s == s[..k] + [s[k]] + s[k + 1..]
  {
  }

  lemma {:induction false} LinesSplit(part: string, rest: string)
    ensures Lines(part + ['\n'] + rest) == Split(part) + Lines(rest)
    decreases |part|
  {
    var k := LineEnd(part);
    if k == |part| {
      LinesFirst(part, rest);
    } else {
      var line, more := part[..k], part[k + 1..];
      CutAround(part, k);
      LinesSplit(more, rest);
      LinesAfter(line, more, rest, Split(more));
    }
  }

  lemma {:induction false} SplitOneLine(s: string)
    ensures forall i :: 0 <= i < |Split(s)| ==> OneLine(Split(s)[i])
    ensures Split(s) == [s] <==> OneLine(s)
    decreases |s|
  {
    if LineEnd(s) < |s| {
      SplitOneLine(s[LineEnd(s) + 1..]);
    }
  }

  // ---------------------------------------------------------------- the body

  const BODY_START := "BODY_START"
  const BODY_END := "BODY_END"

  function Joined(parts: seq<string>): string {
    if parts == [] then [] else parts[0] + ['\n'] + Joined(parts[1..])
  }

  /** The text that is encrypted. */
  function BodyText(parts: seq<string>): string {
    BODY_START + ['\n'] + (Joined(parts) + BODY_END)
  }

  /** The parser's loop over the decrypted lines. */
  function BodyParts(lines: seq<string>, inBody: bool): seq<string> {
    if lines == [] then []
    else if lines[0] == BODY_START then BodyParts(lines[1..], true)
    else if lines[0] == BODY_END then []
    else (if inBody then [lines[0]] else []) + BodyParts(lines[1..], inBody)
  }

  function SplitAll(parts: seq<string>): seq<string> {
    if parts == [] then [] else Split(parts[0]) + SplitAll(parts[1..])
  }

  /** Lines before the first end marker. */
  function UpToEnd(lines: seq<string>): seq<string> {
    if lines == [] || lines[0] == BODY_END then [] else [lines[0]] + UpToEnd(lines[1..])
  }

  function WithoutStarts(lines: seq<string>): seq<string> {
    if lines == [] then []
    else (if lines[0] == BODY_START then [] else [lines[0]]) + WithoutStarts(lines[1..])
  }

  lemma {:induction false} LinesJoined(parts: seq<string>)
    ensures Lines(Joined(parts) + BODY_END) == SplitAll(parts) + [BODY_END]
  {
    if parts == [] {
      assert [] + BODY_END == BODY_END;
      assert [] + [BODY_END] == [BODY_END];
      assert OneLine(BODY_END);
    } else {
      var rest := Joined(parts[1..]) + BODY_END;
      LinesJoined(parts[1..]);
      LinesSplit(parts[0], rest);
      ConcatAssociates(parts[0] + ['\n'], Joined(parts[1..]), BODY_END);
      ConcatAssociates(Split(parts[0]), SplitAll(parts[1..]), [BODY_END]);
    }
  }

  lemma {:induction false} BodyPartsInBody(lines: seq<string>)
    ensures BodyParts(lines + [BODY_END], true) == WithoutStarts(UpToEnd(lines))
  {
    if lines == [] {
      assert [] + [BODY_END] == [BODY_END];
    } else {
      assert (lines + [BODY_END])[1..] == lines[1..] + [BODY_END];
      BodyPartsInBody(lines[1..]);
      assert lines[0] != BODY_END ==> UpToEnd(lines)[1..] == UpToEnd(lines[1..]);
    }
  }

  /** Parsing the text of a body gives the lines of its parts up to the first end marker, with the
      start markers dropped. */
  lemma BodyRoundTrip(parts: seq<string>)
    ensures BodyParts(Lines(BodyText(parts)), false) == WithoutStarts(UpToEnd(SplitAll(parts)))
  {
    assert OneLine(BODY_START);
    LinesFirst(BODY_START, Joined(parts) + BODY_END);
    LinesJoined(parts);
    var lines := SplitAll(parts) + [BODY_END];
    assert ([BODY_START] + lines)[1..] == lines;
    BodyPartsInBody(SplitAll(parts));
  }

  lemma OtherLineSkipped(line: string, before: seq<string>, rest: seq<string>)
    requires line != "BODY_START" && line != "BODY_END"
    ensures BodyParts(([line] + before) + rest, false) == BodyParts(before + rest, false)
  {
    ConcatAssociates([line], before, rest);
    ConcatSplits([line], before + rest);
    assert [] + BodyParts(before + rest, false) == BodyParts(before + rest, false);
  }

  /** Of any text, printed or not: lines before the first start marker do not count, a text with an end
      marker before it or without one has no parts. */
  lemma {:induction false} PartsFollowStart(before: seq<string>, rest: seq<string>)
    requires forall i :: 0 <= i < |before| ==> before[i] != "BODY_START" && before[i] != "BODY_END"
    ensures BodyParts(before, false) == []
    ensures BodyParts(before + (["BODY_END"] + rest), false) == []
    ensures BodyParts(before + (["BODY_START"] + rest), false) == BodyParts(rest, true)
  {
    if before == [] {
      assert [] + (["BODY_END"] + rest) == ["BODY_END"] + rest;
      assert [] + (["BODY_START"] + rest) == ["BODY_START"] + rest;
      ConcatSplits(["BODY_END"], rest);
      ConcatSplits(["BODY_START"], rest);
    } else {
      PartsFollowStart(before[1..], rest);
      OtherLineSkipped(before[0], before[1..], ["BODY_END"] + rest);
      OtherLineSkipped(before[0], before[1..], ["BODY_START"] + rest);
      OtherLineSkipped(before[0], before[1..], []);
      assert before + [] == before && before[1..] + [] == before[1..];
      assert [before[0]] + before[1..] == before;
    }
  }

  lemma LineTaken(line: string, before: seq<string>, rest: seq<string>)
    requires line != "BODY_START" && line != "BODY_END"
    ensures BodyParts(([line] + before) + rest, true) == [line] + BodyParts(before + rest, true)
  {
    ConcatAssociates([line], before, rest);
    ConcatSplits([line], before + rest);
  }

  /** Inside a body each line is a part; a further start marker is none, and nothing after the end
      marker is. */
  lemma {:induction false} PartsInside(lines: seq<string>, rest: seq<string>)
    requires forall i :: 0 <= i < |lines| ==> lines[i] != "BODY_START" && lines[i] != "BODY_END"
    ensures BodyParts(lines, true) == lines
    ensures BodyParts(lines + (["BODY_END"] + rest), true) == lines
    ensures BodyParts(lines + (["BODY_START"] + rest), true) == lines + BodyParts(rest, true)
  {
    if lines == [] {
      assert [] + (["BODY_END"] + rest) == ["BODY_END"] + rest;
      assert [] + (["BODY_START"] + rest) == ["BODY_START"] + rest;
      ConcatSplits(["BODY_END"], rest);
      ConcatSplits(["BODY_START"], rest);
    } else {
      var line, more := lines[0], lines[1..];
      PartsInside(more, rest);
      LineTaken(line, more, ["BODY_END"] + rest);
      LineTaken(line, more, ["BODY_START"] + rest);
      LineTaken(line, more, []);
      assert lines + [] == lines && more + [] == more;
      assert [line] + more == lines;
      ConcatAssociates([line], more, BodyParts(rest, true));
    }
  }

  /** A part that survives: a single line that is no marker. */
  predicate Plain(part: string) {
    OneLine(part) && part != BODY_START && part != BODY_END
  }

  predicate AllPlain(parts: seq<string>) {
    forall i :: 0 <= i < |parts| ==> Plain(parts[i])
  }

  lemma {:induction false} PlainPartsSurvive(parts: seq<string>)
    requires AllPlain(parts)
    ensures WithoutStarts(UpToEnd(SplitAll(parts))) == parts
  {
    if parts == [] {
    } else {
      PlainPartsSurvive(parts[1..]);
      SplitOneLine(parts[0]);
      var rest := SplitAll(parts[1..]);
      ConcatSplits([parts[0]], rest);
      ConcatSplits([parts[0]], UpToEnd(rest));
    }
  }

  lemma {:induction false} SplitAllOneLine(parts: seq<string>)
    ensures forall i :: 0 <= i < |SplitAll(parts)| ==> OneLine(SplitAll(parts)[i])
  {
    if parts == [] {
    } else {
      SplitOneLine(parts[0]);
      SplitAllOneLine(parts[1..]);
    }
  }

  lemma {:induction false} SurvivorsArePlain(lines: seq<string>)
    requires forall i :: 0 <= i < |lines| ==> OneLine(lines[i])
    ensures AllPlain(WithoutStarts(UpToEnd(lines)))
  {
    if lines != [] && lines[0] != BODY_END {
      SurvivorsArePlain(lines[1..]);
      assert UpToEnd(lines)[1..] == UpToEnd(lines[1..]);
    }
  }

  /** The body comes back unchanged if and only if every part is a single line and no marker. */
  lemma BodyIdentityExactly(parts: seq<string>)
    ensures BodyParts(Lines(BodyText(parts)), false) == parts <==> AllPlain(parts)
  {
    BodyRoundTrip(parts);
    if AllPlain(parts) {
      PlainPartsSurvive(parts);
    }
    SplitAllOneLine(parts);
    SurvivorsArePlain(SplitAll(parts));
  }

  // ---------------------------------------------------------------- the header

  function Decimal(n: nat): string {
    if n < 10 then [('0' as int + n) as char] else Decimal(n / 10) + [('0' as int + n % 10) as char]
  }

  /** The number a string of decimal digits stands for. */
  function Value(digits: string): int {
    if digits == [] then 0
    else 10 * Value(digits[..|digits| - 1]) + (digits[|digits| - 1] as int - '0' as int)
  }

  function Pow10(k: nat): nat {
    if k == 0 then 1 else 10 * Pow10(k - 1)
  }

  predicate AllDigits(s: string) {
    forall i :: 0 <= i < |s| ==> '0' <= s[i] <= '9'
  }

  /** What is printed is decimal: read back it gives the number, without leading zeros. */
  lemma {:induction false} DecimalExactly(n: nat)
    ensures AllDigits(Decimal(n)) && Value(Decimal(n)) == n
    ensures Decimal(n)[0] == '0' <==> n == 0
    ensures n == 0 ==> Decimal(n) == "0"
  {
    if n < 10 {
      assert Decimal(n)[..0] == [];
    } else {
      var d := Decimal(n / 10);
      DecimalExactly(n / 10);
      assert Decimal(n)[..|d|] == d;
    }
  }

  /** Its length is the number of decimal digits. */
  lemma {:induction false} DigitCount(n: nat)
    ensures var k := |Decimal(n)|; k >= 1 && n < Pow10(k) && (k > 1 ==> Pow10(k - 1) <= n)
  {
    if n < 10 {
      assert Pow10(1) == 10 * Pow10(0);
    } else {
      DigitCount(n / 10);
      var k := |Decimal(n / 10)|;
      assert Pow10(k + 1) == 10 * Pow10(k) && Pow10(k) == 10 * Pow10(k - 1);
    }
  }

  lemma {:induction false} DecimalIsOneLine(n: nat)
    ensures OneLine(Decimal(n)) && |Decimal(n)| > 0
  {
    if n >= 10 {
      DecimalIsOneLine(n / 10);
    }
  }

  lemma {:induction false} DecimalGrows(a: nat, b: nat)
    requires a <= b
    ensures |Decimal(a)| <= |Decimal(b)|
  {
    if b >= 10 {
      if a >= 10 {
        DecimalGrows(a / 10, b / 10);
      } else {
        DecimalIsOneLine(b / 10);
      }
    }
  }

  const TYPE := "TYPE:"
  const ENCRYPTED_KEY := "ENCRYPTED_KEY:"
  const SIZE := "SIZE:"
  const ENCRYPTED_BODY := "ENCRYPTED_BODY:"

  function WireText(t: MessageType, key: seq<byte>, size: nat, body: seq<byte>): string {
    (TYPE + TypeName(t)) + ['\n'] + ((ENCRYPTED_KEY + BytesToHex(key)) + ['\n']
    + ((SIZE + Decimal(size)) + ['\n'] + (ENCRYPTED_BODY + BytesToHex(body))))
  }

  datatype Header = Header(msgType: MessageType, hexKey: string, hexBody: string)

  function TypeOf(name: string, otherwise: MessageType): MessageType {
    if name == "GREETING" then Greeting else if name == "EVENT" then Event
    else if name == "SNAP" then Snap else otherwise
  }

  function ReadLine(h: Header, line: string): Header {
    if TYPE <= line then h.(msgType := TypeOf(line[5..], h.msgType))
    else if ENCRYPTED_KEY <= line then h.(hexKey := line[14..])
    else if ENCRYPTED_BODY <= line then h.(hexBody := line[15..])
    else h
  }

  function ReadLines(h: Header, lines: seq<string>): Header
    decreases lines
  {
    if lines == [] then h else ReadLines(ReadLine(h, lines[0]), lines[1..])
  }

  lemma HexIsOneLine(bytes: seq<byte>)
    ensures OneLine(BytesToHex(bytes))
  {
    HexRoundTrip(bytes);
  }

  lemma WireLines(t: MessageType, key: seq<byte>, size: nat, body: seq<byte>)
    ensures Lines(WireText(t, key, size, body))
         == [TYPE + TypeName(t)] + ([ENCRYPTED_KEY + BytesToHex(key)]
            + ([SIZE + Decimal(size)] + [ENCRYPTED_BODY + BytesToHex(body)]))
  {
    HexIsOneLine(key);
    HexIsOneLine(body);
    DecimalIsOneLine(size);
    var l1, l2 := TYPE + TypeName(t), ENCRYPTED_KEY + BytesToHex(key);
    var l3, l4 := SIZE + Decimal(size), ENCRYPTED_BODY + BytesToHex(body);
    assert OneLine(l1) && OneLine(l2) && OneLine(l3) && OneLine(l4);
    LinesFirst(l1, l2 + ['\n'] + (l3 + ['\n'] + l4));
    LinesFirst(l2, l3 + ['\n'] + l4);
    LinesFirst(l3, l4);
  }

  /** The text as it goes out, with the size in decimal. */
  lemma WireTextLayout(t: MessageType, key: seq<byte>, size: nat, body: seq<byte>) returns (digits: string)
    ensures AllDigits(digits) && Value(digits) == size && digits != [] && (digits[0] == '0' ==> digits == "0")
    ensures WireText(t, key, size, body)
         == ("TYPE:" + TypeName(t)) + ("\nENCRYPTED_KEY:" + BytesToHex(key))
            + ("\nSIZE:" + digits) + ("\nENCRYPTED_BODY:" + BytesToHex(body))
  {
    DecimalExactly(size);
    digits := Decimal(size);
    TextRegrouped(TYPE + TypeName(t), ENCRYPTED_KEY, BytesToHex(key), SIZE, digits, ENCRYPTED_BODY, BytesToHex(body));
    assert ['\n'] + ENCRYPTED_KEY == "\nENCRYPTED_KEY:";
    assert ['\n'] + SIZE == "\nSIZE:";
    assert ['\n'] + ENCRYPTED_BODY == "\nENCRYPTED_BODY:";
  }

  lemma TextRegrouped(a: string, l1: string, b: string, l2: string, c: string, l3: string, d: string)
    ensures a + ['\n'] + ((l1 + b) + ['\n'] + ((l2 + c) + ['\n'] + (l3 + d)))
         == a + ((['\n'] + l1) + b) + ((['\n'] + l2) + c) + ((['\n'] + l3) + d)
  {
    ConcatAssociates(['\n'], l1, b);
    ConcatAssociates(['\n'], l2, c);
    ConcatAssociates(['\n'], l3, d);
    var x, y, z := l1 + b, l2 + c, l3 + d;
    assert a + ['\n'] + (x + ['\n'] + (y + ['\n'] + z)) == a + (['\n'] + x) + (['\n'] + y) + (['\n'] + z);
  }

  /** The header lines come back as they were printed. */
  lemma HeaderRoundTrip(t: MessageType, key: seq<byte>, size: nat, body: seq<byte>)
    ensures ReadLines(Header(Unknown, "", ""), Lines(WireText(t, key, size, body)))
         == Header(t, BytesToHex(key), BytesToHex(body))
  {
    WireLines(t, key, size, body);
    var l1, l2 := TYPE + TypeName(t), ENCRYPTED_KEY + BytesToHex(key);
    var l3, l4 := SIZE + Decimal(size), ENCRYPTED_BODY + BytesToHex(body);
    var h0 := Header(Unknown, "", "");
    TypeLineReads(h0, t);
    KeyLineReads(Header(t, "", ""), BytesToHex(key));
    SizeLineSkipped(Header(t, BytesToHex(key), ""), Decimal(size));
    BodyLineReads(Header(t, BytesToHex(key), ""), BytesToHex(body));
    FourLines(h0, l1, l2, l3, l4);
  }

  lemma TypeLineReads(h: Header, t: MessageType)
    requires h.msgType == Unknown
    ensures ReadLine(h, TYPE + TypeName(t)) == h.(msgType := t)
  {
    assert (TYPE + TypeName(t))[5..] == TypeName(t);
  }

  lemma KeyLineReads(h: Header, hex: string)
    ensures ReadLine(h, ENCRYPTED_KEY + hex) == h.(hexKey := hex)
  {
    var line := ENCRYPTED_KEY + hex;
    assert line[0] == 'E' && line[14..] == hex;
  }

  lemma SizeLineSkipped(h: Header, digits: string)
    ensures ReadLine(h, SIZE + digits) == h
  {
    assert (SIZE + digits)[0] == 'S';
  }

  lemma BodyLineReads(h: Header, hex: string)
    ensures ReadLine(h, ENCRYPTED_BODY + hex) == h.(hexBody := hex)
  {
    var line := ENCRYPTED_BODY + hex;
    assert line[0] == 'E' && line[10] == 'B' && line[15..] == hex;
  }

  lemma FourLines(h: Header, a: string, b: string, c: string, d: string)
    ensures ReadLines(h, [a] + ([b] + ([c] + [d]))) == ReadLine(ReadLine(ReadLine(ReadLine(h, a), b), c), d)
  {
    var h1 := ReadLine(h, a);
    var h2 := ReadLine(h1, b);
    var h3 := ReadLine(h2, c);
    OneMoreLine(h, a, [b] + ([c] + [d]));
    OneMoreLine(h1, b, [c] + [d]);
    OneMoreLine(h2, c, [d]);
    OneMoreLine(h3, d, []);
    assert [d] + [] == [d];
  }

  lemma OneMoreLine(h: Header, line: string, rest: seq<string>)
    ensures ReadLines(h, [line] + rest) == ReadLines(ReadLine(h, line), rest)
  {
    ConcatSplits([line], rest);
  }

  // Of several lines with one label the last counts; other lines do not.

  lemma {:induction false} KeyKept(h: Header, lines: seq<string>)
    requires forall j :: 0 <= j < |lines| ==> !("ENCRYPTED_KEY:" <= lines[j])
    ensures ReadLines(h, lines).hexKey == h.hexKey
    decreases lines
  {
    if lines == [] {
    } else {
      KeyKept(ReadLine(h, lines[0]), lines[1..]);
    }
  }

  lemma {:induction false} LastKeyRead(h: Header, lines: seq<string>, i: nat)
    requires i < |lines| && "ENCRYPTED_KEY:" <= lines[i]
    requires forall j :: i < j < |lines| ==> !("ENCRYPTED_KEY:" <= lines[j])
    ensures ReadLines(h, lines).hexKey == lines[i][14..]
    decreases lines
  {
    if i == 0 {
      assert lines[0][0] == 'E';
      KeyKept(ReadLine(h, lines[0]), lines[1..]);
    } else {
      LastKeyRead(ReadLine(h, lines[0]), lines[1..], i - 1);
    }
  }

  lemma {:induction false} BodyKept(h: Header, lines: seq<string>)
    requires forall j :: 0 <= j < |lines| ==> !("ENCRYPTED_BODY:" <= lines[j])
    ensures ReadLines(h, lines).hexBody == h.hexBody
    decreases lines
  {
    if lines == [] {
    } else {
      BodyKept(ReadLine(h, lines[0]), lines[1..]);
    }
  }

  lemma {:induction false} LastBodyRead(h: Header, lines: seq<string>, i: nat)
    requires i < |lines| && "ENCRYPTED_BODY:" <= lines[i]
    requires forall j :: i < j < |lines| ==> !("ENCRYPTED_BODY:" <= lines[j])
    ensures ReadLines(h, lines).hexBody == lines[i][15..]
    decreases lines
  {
    if i == 0 {
      assert lines[0][0] == 'E' && lines[0][10] == 'B';
      BodyKept(ReadLine(h, lines[0]), lines[1..]);
    } else {
      LastBodyRead(ReadLine(h, lines[0]), lines[1..], i - 1);
    }
  }

  /** The line sets the type. */
  predicate NamesType(line: string) {
    line == "TYPE:GREETING" || line == "TYPE:EVENT" || line == "TYPE:SNAP"
  }

  lemma TypeLine(h: Header, line: string)
    ensures ReadLine(h, line).msgType
         == if line == "TYPE:GREETING" then Greeting else if line == "TYPE:EVENT" then Event
            else if line == "TYPE:SNAP" then Snap else h.msgType
  {
    assert "TYPE:GREETING" == TYPE + "GREETING" && "TYPE:EVENT" == TYPE + "EVENT" && "TYPE:SNAP" == TYPE + "SNAP";
    if TYPE <= line {
      assert line == TYPE + line[5..];
      assert "TYPE:GREETING"[5..] == "GREETING" && "TYPE:EVENT"[5..] == "EVENT" && "TYPE:SNAP"[5..] == "SNAP";
    }
  }

  lemma {:induction false} TypeKept(h: Header, lines: seq<string>)
    requires forall j :: 0 <= j < |lines| ==> !NamesType(lines[j])
    ensures ReadLines(h, lines).msgType == h.msgType
    decreases lines
  {
    if lines == [] {
    } else {
      assert !NamesType(lines[0]);
      TypeLine(h, lines[0]);
      TypeKept(ReadLine(h, lines[0]), lines[1..]);
    }
  }

  lemma {:induction false} LastTypeRead(h: Header, lines: seq<string>, i: nat)
    requires i < |lines| && NamesType(lines[i]) && forall j :: i < j < |lines| ==> !NamesType(lines[j])
    ensures ReadLines(h, lines).msgType
         == if lines[i] == "TYPE:GREETING" then Greeting else if lines[i] == "TYPE:EVENT" then Event else Snap
    decreases lines
  {
    if i == 0 {
      TypeLine(h, lines[0]);
      TypeKept(ReadLine(h, lines[0]), lines[1..]);
    } else {
      LastTypeRead(ReadLine(h, lines[0]), lines[1..], i - 1);
    }
  }

  // ---------------------------------------------------------------- the size field

  function TotalLength(parts: seq<string>): nat {
    if parts == [] then 0 else TotalLength(parts[..|parts| - 1]) + |parts[|parts| - 1]|
  }

  /** Part lengths and the estimate for the first two header lines. */
  function BaseSize(t: MessageType, key: seq<byte>, parts: seq<string>): nat {
    TotalLength(parts) + (|TypeName(t)| + 5) + (|BytesToHex(key)| + 14)
  }

  /** `messageSize`, of the type, the encrypted key and the parts alone. */
  function MessageSize(t: MessageType, key: seq<byte>, parts: seq<string>): nat {
    var base := BaseSize(t, key, parts);
    |BodyText(parts)| + (|TypeName(t)| + 5) + (2 * |key| + 14) + (|Decimal(base)| + 6) + 16
  }

  lemma {:induction false} BodyTextLength(parts: seq<string>)
    ensures |BodyText(parts)| == TotalLength(parts) + |parts| + 19
  {
    JoinedLength(parts);
  }

  lemma {:induction false} JoinedLength(parts: seq<string>)
    ensures |Joined(parts)| == TotalLength(parts) + |parts|
  {
    if parts == [] {
    } else {
      JoinedLength(parts[1..]);
      TotalLengthCons(parts);
    }
  }

  lemma {:induction false} TotalLengthCons(parts: seq<string>)
    requires parts != []
    ensures TotalLength(parts) == |parts[0]| + TotalLength(parts[1..])
  {
    if |parts| > 1 {
      var init := parts[..|parts| - 1];
      TotalLengthCons(init);
      assert parts[1..][..|parts| - 2] == init[1..];
      assert parts[1..][|parts| - 2] == parts[|parts| - 1];
    }
  }

  lemma SizeBySummands(t: MessageType, key: seq<byte>, parts: seq<string>)
    ensures MessageSize(t, key, parts)
         == BaseSize(t, key, parts) + (|Decimal(BaseSize(t, key, parts))| + 6) + 16 + 11 + 8 + |parts|
  {
    HexRoundTrip(key);
    BodyTextLength(parts);
  }

  /** The size of a message, written out: the parts, the estimates for the lines, and the number of
      decimal digits of what is summed up before the size line itself. */
  lemma SizeInDecimal(t: MessageType, key: seq<byte>, parts: seq<string>) returns (digits: nat)
    ensures var base := TotalLength(parts) + (|TypeName(t)| + 5) + (2 * |key| + 14);
            && digits >= 1 && base < Pow10(digits) && (digits > 1 ==> Pow10(digits - 1) <= base)
            && MessageSize(t, key, parts) == base + (digits + 6) + 16 + 11 + 8 + |parts|
  {
    HexRoundTrip(key);
    BodyTextLength(parts);
    DigitCount(BaseSize(t, key, parts));
    digits := |Decimal(BaseSize(t, key, parts))|;
  }

  /** Every push makes the size field strictly larger, whatever the digit count does. */
  lemma MessageSizeGrows(t: MessageType, key: seq<byte>, parts: seq<string>, part: string)
    ensures MessageSize(t, key, parts + [part]) > MessageSize(t, key, parts)
  {
    assert (parts + [part])[..|parts|] == parts;
    BodyTextLength(parts);
    BodyTextLength(parts + [part]);
    DecimalGrows(BaseSize(t, key, parts), BaseSize(t, key, parts + [part]));
  }

  // ---------------------------------------------------------------- the object

  class Message {
    var msgType: MessageType
    var encryptedSessionKey: seq<byte>
    var messageSize: nat
    var messageBodyParts: seq<string>
    var encryptedMessageBody: seq<byte>
    var symmetricSessionKey: seq<byte>

    /** For sending, with the random session key as a parameter. */
    constructor Sending(t: MessageType, ciphers: Ciphers, sessionKey: seq<byte>)
      ensures msgType == t && messageSize == 0 && messageBodyParts == [] && encryptedMessageBody == []
      ensures symmetricSessionKey == sessionKey && encryptedSessionKey == ciphers.wrap(sessionKey)
    {
      msgType, messageSize, messageBodyParts, encryptedMessageBody := t, 0, [], [];
      symmetricSessionKey, encryptedSessionKey := sessionKey, ciphers.wrap(sessionKey);
    }

    /** For receiving. */
    constructor Receiving(raw: string, ciphers: Ciphers)
      ensures var h := ReadLines(Header(Unknown, "", ""), Lines(raw));
              && msgType == h.msgType && messageSize == 0
              && encryptedSessionKey == HexToBytes(h.hexKey) && encryptedMessageBody == HexToBytes(h.hexBody)
              && symmetricSessionKey == ciphers.unwrap(encryptedSessionKey)
              && messageBodyParts == BodyParts(Lines(ciphers.decrypt(encryptedMessageBody, symmetricSessionKey)), false)
    {
      var h := ParseHeader(raw);
      var key := HexToBytesLoop(h.hexKey);
      var body := HexToBytesLoop(h.hexBody);
      var sessionKey := ciphers.unwrap(key);
      var parts := ParseBody(ciphers.decrypt(body, sessionKey));
      msgType, messageSize := h.msgType, 0;
      encryptedSessionKey, encryptedMessageBody := key, body;
      symmetricSessionKey, messageBodyParts := sessionKey, parts;
    }

    method UpdateMessageSize()
      modifies this`messageSize
      ensures messageSize == MessageSize(msgType, encryptedSessionKey, messageBodyParts)
    {
      var total := SumLengths(messageBodyParts);
      var hexKey := BytesToHexLoop(encryptedSessionKey);
      messageSize := FullSize(msgType, encryptedSessionKey, messageBodyParts, total, hexKey);
    }

    method PushBody(data: string)
      modifies this`messageSize, this`messageBodyParts
      ensures messageBodyParts == old(messageBodyParts) + [data]
      ensures messageSize == MessageSize(msgType, encryptedSessionKey, messageBodyParts)
    {
      messageBodyParts := messageBodyParts + [data];
      UpdateMessageSize();
    }

    method GenerateEncryptedMessageForSending(ciphers: Ciphers)
      modifies this`encryptedMessageBody
      ensures encryptedMessageBody == ciphers.encrypt(BodyText(messageBodyParts), symmetricSessionKey)
    {
      var body: string := [];
      for i := 0 to |messageBodyParts|
        invariant body + Joined(messageBodyParts[i..]) == Joined(messageBodyParts)
      {
        assert messageBodyParts[i..][1..] == messageBodyParts[i + 1..];
        ConcatAssociates(body, messageBodyParts[i] + ['\n'], Joined(messageBodyParts[i + 1..]));
        body := body + (messageBodyParts[i] + ['\n']);
      }
      assert body + [] == body;
      encryptedMessageBody := ciphers.encrypt(BODY_START + ['\n'] + (body + BODY_END), symmetricSessionKey);
    }

    method GetMessageToSend() returns (raw: string)
      ensures raw == WireText(msgType, encryptedSessionKey, messageSize, encryptedMessageBody)
    {
      var hexKey := BytesToHexLoop(encryptedSessionKey);
      var hexBody := BytesToHexLoop(encryptedMessageBody);
      raw := (TYPE + TypeName(msgType)) + ['\n'] + ((ENCRYPTED_KEY + hexKey) + ['\n']
             + ((SIZE + Decimal(messageSize)) + ['\n'] + (ENCRYPTED_BODY + hexBody)));
    }
  }

  /** The summing loop of `updateMessageSize`. */
  method SumLengths(parts: seq<string>) returns (total: nat)
    ensures total == TotalLength(parts)
  {
    total := 0;
    for i := 0 to |parts|
      invariant total == TotalLength(parts[..i])
    {
      assert parts[..i + 1][..i] == parts[..i];
      total := total + |parts[i]|;
    }
    assert parts[..|parts|] == parts;
  }

  /** The additions of `updateMessageSize`, in its order; the digit count is that of the sum so far. */
  method FullSize(t: MessageType, key: seq<byte>, parts: seq<string>, total: nat, hexKey: string) returns (size: nat)
    requires total == TotalLength(parts) && hexKey == BytesToHex(key)
    ensures size == MessageSize(t, key, parts)
  {
    SizeBySummands(t, key, parts);
    size := total;
    size := size + (|TypeName(t)| + 5);
    size := size + (|hexKey| + 14);
    size := size + (|Decimal(size)| + 6);
    size := size + 16; // the body label and a newline
    size := size + 11; // the start marker and a newline
    size := size + 8; // the end marker
    size := size + |parts| * 1;
  }

  method ParseHeader(raw: string) returns (h: Header)
    ensures h == ReadLines(Header(Unknown, "", ""), Lines(raw))
  {
    h := Header(Unknown, "", "");
    var stream := raw;
    while stream != []
      invariant ReadLines(h, Lines(stream)) == ReadLines(Header(Unknown, "", ""), Lines(raw))
      decreases |stream|
    {
      var line;
      line, stream := GetLine(stream);
      OneMoreLine(h, line, Lines(stream));
      h := ReadLine(h, line);
    }
  }

  method ParseBody(text: string) returns (parts: seq<string>)
    ensures parts == BodyParts(Lines(text), false)
  {
    parts := [];
    var inBody := false;
    var stream := text;
    while stream != []
      invariant parts + BodyParts(Lines(stream), inBody) == BodyParts(Lines(text), false)
      decreases |stream|
    {
      var line;
      line, stream := GetLine(stream);
      BodyPartsStep(line, Lines(stream), inBody);
      if line == BODY_START {
        inBody := true;
        continue;
      }
      if line == BODY_END {
        break;
      }
      if inBody {
        ConcatAssociates(parts, [line], BodyParts(Lines(stream), inBody));
        parts := parts + [line];
      }
    }
    assert parts + [] == parts;
  }

  lemma BodyPartsStep(line: string, rest: seq<string>, inBody: bool)
    ensures BodyParts([line] + rest, inBody)
         == if line == BODY_START then BodyParts(rest, true)
            else if line == BODY_END then []
            else (if inBody then [line] else []) + BodyParts(rest, inBody)
    ensures [] + BodyParts(rest, inBody) == BodyParts(rest, inBody)
  {
    ConcatSplits([line], rest);
  }

  method GetLine(stream: string) returns (line: string, rest: string)
    requires stream != []
    ensures |rest| < |stream| && Lines(stream) == [line] + Lines(rest)
  {
    var k := 0;
    while k < |stream| && stream[k] != '\n'
      invariant 0 <= k <= |stream|
      invariant forall i :: 0 <= i < k ==> stream[i] != '\n'
    {
      k := k + 1;
    }
    assert k == LineEnd(stream);
    LinesFrom(stream);
    line := stream[..k];
    rest := if k < |stream| then stream[k + 1..] else [];
  }

  lemma LinesFrom(stream: string)
    requires stream != []
    ensures var k := LineEnd(stream);
            Lines(stream) == [stream[..k]] + Lines(if k < |stream| then stream[k + 1..] else [])
  {
    var k := LineEnd(stream);
    if k == |stream| {
      assert stream[..k] == stream && [stream] + [] == [stream];
    }
  }

  /** Printing a message and receiving it: the type comes back, and the parts that come back are
      the lines of the sent parts up to the first end marker without the start markers; they are
      the sent parts if and only if every one of them is a single line and no marker. */
  lemma EnvelopeRoundTrip(c: Ciphers, t: MessageType, sessionKey: seq<byte>, size: nat, parts: seq<string>)
    requires InversePairs(c)
    ensures var raw := WireText(t, c.wrap(sessionKey), size, c.encrypt(BodyText(parts), sessionKey));
            var h := ReadLines(Header(Unknown, "", ""), Lines(raw));
            var key := c.unwrap(HexToBytes(h.hexKey));
            var received := BodyParts(Lines(c.decrypt(HexToBytes(h.hexBody), key)), false);
            && h.msgType == t && key == sessionKey
            && received == WithoutStarts(UpToEnd(SplitAll(parts)))
            && (received == parts <==> AllPlain(parts))
  {
    var body := c.encrypt(BodyText(parts), sessionKey);
    HeaderRoundTrip(t, c.wrap(sessionKey), size, body);
    HexRoundTrip(c.wrap(sessionKey));
    HexRoundTrip(body);
    BodyRoundTrip(parts);
    BodyIdentityExactly(parts);
  }
}
