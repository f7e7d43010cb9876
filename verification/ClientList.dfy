/** The CLIENT_LIST payload: how the server writes its registry and how a client reads it. */
module ClientList {
  import opened Bytes

  /** A registry entry. `socket` is the connection, numbered in order of acceptance. */
  datatype ClientHandler = ClientHandler(socket: nat, clientID: byte, ipAddress: seq<byte>, port: u16)

  datatype ClientInfo = ClientInfo(clientID: byte, ipAddress: seq<byte>, port: u16)

  function Info(c: ClientHandler): ClientInfo {
    ClientInfo(c.clientID, c.ipAddress, c.port)
  }

  function Infos(cs: seq<ClientHandler>): (r: seq<ClientInfo>)
    ensures |r| == |cs|
  {
    seq(|cs|, i requires 0 <= i < |cs| => Info(cs[i]))
  }

  function EncodeEntry(host: HostOrder, c: ClientHandler): (r: seq<byte>)
    ensures |r| == |c.ipAddress| + 4
  {
    var netPort := Htons(host, c.port);
    [c.clientID, |c.ipAddress| % 0x100] + c.ipAddress + [netPort / 0x100, netPort % 0x100]
  }

  function EncodeList(host: HostOrder, cs: seq<ClientHandler>): seq<byte> {
    if cs == [] then [] else EncodeEntry(host, cs[0]) + EncodeList(host, cs[1..])
  }

  /** Entries up to the first one that is not complete. */
  function ParseList(host: HostOrder, data: seq<byte>): seq<ClientInfo>
    decreases |data|
  {
    if |data| < 2 || |data| < data[1] as int + 4 then []
    else
      var n: int := data[1];
      [ClientInfo(data[0], data[2..2 + n], Htons(host, data[2 + n] as int * 0x100 + data[3 + n]))]
      + ParseList(host, data[4 + n..])
  }

  /** The map a client builds: for a repeated id the later entry wins. */
  function Directory(infos: seq<ClientInfo>): map<byte, ClientInfo> {
    if infos == [] then map[]
    else Directory(infos[..|infos| - 1])[infos[|infos| - 1].clientID := infos[|infos| - 1]]
  }

  /** Every listed id is in the map, with its last entry, and no other id is. */
  lemma {:induction false} DirectoryHoldsLast(infos: seq<ClientInfo>, i: nat)
    requires i < |infos| && forall j :: i < j < |infos| ==> infos[j].clientID != infos[i].clientID
    ensures infos[i].clientID in Directory(infos) && Directory(infos)[infos[i].clientID] == infos[i]
  {
    if i < |infos| - 1 {
      DirectoryHoldsLast(infos[..|infos| - 1], i);
    }
  }

  lemma {:induction false} DirectoryHoldsListed(infos: seq<ClientInfo>, id: byte)
    requires forall i :: 0 <= i < |infos| ==> infos[i].clientID != id
    ensures id !in Directory(infos)
  {
    if infos == [] {
    } else {
      DirectoryHoldsListed(infos[..|infos| - 1], id);
    }
  }

  predicate DistinctIds(cs: seq<ClientHandler>) {
    forall i, j :: 0 <= i < j < |cs| ==> cs[i].clientID != cs[j].clientID
  }

  /** Entries with the same id say the same. */
  predicate Consistent(cs: seq<ClientHandler>) {
    forall i, j :: 0 <= i < |cs| && 0 <= j < |cs| && cs[i].clientID == cs[j].clientID ==> Info(cs[i]) == Info(cs[j])
  }

  /** `m` is what the registry says: one entry per registered id, with its address and port. */
  predicate Mirrors(m: map<byte, ClientInfo>, cs: seq<ClientHandler>) {
    && (forall i :: 0 <= i < |cs| ==> cs[i].clientID in m && m[cs[i].clientID] == Info(cs[i]))
    && (forall id :: id in m ==> exists i :: 0 <= i < |cs| && cs[i].clientID == id)
  }

  /** What the two hosts need for one entry to get across: an address length that fits its byte,
      and either the same byte order on both sides or a port that reads the same both ways. */
  predicate EntryCrosses(from: HostOrder, to: HostOrder, c: ClientHandler) {
    |c.ipAddress| < 0x100 && (from == to || c.port / 0x100 == c.port % 0x100)
  }

  /** An entry byte by byte: id, address length, address, and the port in the order of the sender's
      memory: most significant byte first only on a big-endian host. */
  lemma EntryLayout(host: HostOrder, c: ClientHandler)
    ensures var e, n := EncodeEntry(host, c), |c.ipAddress|;
            && |e| == n + 4 && e[0] == c.clientID && e[1] == n % 0x100 && e[2..2 + n] == c.ipAddress
            && e[2 + n] == (if host == BigEndian then c.port / 0x100 else c.port % 0x100)
            && e[3 + n] == (if host == BigEndian then c.port % 0x100 else c.port / 0x100)
  {
  }

  lemma ParseComplete(host: HostOrder, entry: seq<byte>, ip: seq<byte>, rest: seq<byte>)
    requires |entry| >= 2 && |ip| == entry[1] && |rest| >= 2 && entry[2..] == ip + rest
    ensures ParseList(host, entry)
         == [ClientInfo(entry[0], ip, Htons(host, rest[0] as int * 0x100 + rest[1]))] + ParseList(host, rest[2..])
  {
    var n := |ip|;
    ConcatSplits(ip, rest);
    assert entry[2..2 + n] == entry[2..][..n];
    assert entry[2 + n] == entry[2..][n] && entry[3 + n] == entry[2..][n + 1];
    assert entry[4 + n..] == entry[2..][n..][2..];
  }

  lemma ParseEntry(from: HostOrder, to: HostOrder, c: ClientHandler, rest: seq<byte>)
    requires |c.ipAddress| < 0x100
    ensures ParseList(to, EncodeEntry(from, c) + rest)
         == [ClientInfo(c.clientID, c.ipAddress, Htons(to, Htons(from, c.port)))] + ParseList(to, rest)
  {
    var netPort := Htons(from, c.port);
    var head, ports := [c.clientID, |c.ipAddress| % 0x100], [netPort / 0x100, netPort % 0x100];
    var entry := (head + c.ipAddress + ports) + rest;
    assert entry == head + (c.ipAddress + (ports + rest));
    ConcatSplits(head, c.ipAddress + (ports + rest));
    ConcatSplits(ports, rest);
    ParseComplete(to, entry, c.ipAddress, ports + rest);
  }

  lemma ParseLongEntry(from: HostOrder, to: HostOrder, c: ClientHandler, rest: seq<byte>)
    requires |c.ipAddress| >= 0x100
    ensures var r := ParseList(to, EncodeEntry(from, c) + rest);
            r == [] || |r[0].ipAddress| < |c.ipAddress|
  {
    var entry := EncodeEntry(from, c) + rest;
    assert entry[1] == EncodeEntry(from, c)[1] == |c.ipAddress| % 0x100;
  }

  predicate AllCross(from: HostOrder, to: HostOrder, cs: seq<ClientHandler>) {
    forall i :: 0 <= i < |cs| ==> EntryCrosses(from, to, cs[i])
  }

  lemma AllCrossStep(from: HostOrder, to: HostOrder, cs: seq<ClientHandler>)
    requires cs != []
    ensures AllCross(from, to, cs) <==> EntryCrosses(from, to, cs[0]) && AllCross(from, to, cs[1..])
  {
    if EntryCrosses(from, to, cs[0]) && AllCross(from, to, cs[1..]) {
      forall i | 0 <= i < |cs|
        ensures EntryCrosses(from, to, cs[i])
      {
        if i > 0 {
          assert cs[i] == cs[1..][i - 1];
        }
      }
    }
  }

  lemma InfosStep(cs: seq<ClientHandler>)
    requires cs != []
    ensures Infos(cs) == [Info(cs[0])] + Infos(cs[1..])
  {
  }

  lemma ConsEqual<T>(x: T, y: T, xs: seq<T>, ys: seq<T>)
    ensures [x] + xs == [y] + ys <==> x == y && xs == ys
  {
    assert ([x] + xs)[0] == x && ([x] + xs)[1..] == xs;
    assert ([y] + ys)[0] == y && ([y] + ys)[1..] == ys;
  }

  /** Reading a written registry back gives exactly the registry if and only if every entry
      crosses: no other address length works, and hosts of opposite byte order see swapped ports. */
  lemma {:induction false} ListRoundTrip(from: HostOrder, to: HostOrder, cs: seq<ClientHandler>)
    ensures ParseList(to, EncodeList(from, cs)) == Infos(cs) <==> AllCross(from, to, cs)
  {
    if cs == [] {
    } else {
      var c, rest := cs[0], EncodeList(from, cs[1..]);
      ListRoundTrip(from, to, cs[1..]);
      InfosStep(cs);
      AllCrossStep(from, to, cs);
      if |c.ipAddress| < 0x100 {
        ParseEntry(from, to, c, rest);
        var seen := ClientInfo(c.clientID, c.ipAddress, Htons(to, Htons(from, c.port)));
        ConsEqual(seen, Info(c), ParseList(to, rest), Infos(cs[1..]));
        Swap16Involutive(c.port);
        Swap16Fixed(c.port);
      } else {
        ParseLongEntry(from, to, c, rest);
        assert Infos(cs)[0] == Info(c);
      }
    }
  }

  /** How many entries lie entirely within the first `k` bytes of a list. */
  function WholeEntries(cs: seq<ClientHandler>, k: nat): (n: nat)
    ensures n <= |cs|
  {
    if cs == [] || k < |cs[0].ipAddress| + 4 then 0 else 1 + WholeEntries(cs[1..], k - (|cs[0].ipAddress| + 4))
  }

  lemma PartialEntry(from: HostOrder, to: HostOrder, c: ClientHandler, k: nat)
    requires |c.ipAddress| < 0x100 && k < |c.ipAddress| + 4
    ensures ParseList(to, EncodeEntry(from, c)[..k]) == []
  {
    EntryLayout(from, c);
  }

  /** A list cut after any number of bytes gives exactly the entries that are whole. */
  lemma {:induction false} ListCut(from: HostOrder, to: HostOrder, cs: seq<ClientHandler>, k: nat)
    requires AllCross(from, to, cs) && k <= |EncodeList(from, cs)|
    ensures ParseList(to, EncodeList(from, cs)[..k]) == Infos(cs[..WholeEntries(cs, k)])
  {
    if cs == [] {
    } else {
      var c, entry, rest := cs[0], EncodeEntry(from, cs[0]), EncodeList(from, cs[1..]);
      AllCrossStep(from, to, cs);
      if k < |entry| {
        assert (entry + rest)[..k] == entry[..k];
        PartialEntry(from, to, c, k);
      } else {
        var j := WholeEntries(cs, k);
        PrefixOfConcat(entry, rest, k);
        ParseEntry(from, to, c, rest[..k - |entry|]);
        ListCut(from, to, cs[1..], k - |entry|);
        Swap16Involutive(c.port);
        Swap16Fixed(c.port);
        InfosStep(cs[..j]);
        assert cs[..j][1..] == cs[1..][..j - 1];
      }
    }
  }

  /** Every id is listed, with the entry it was listed with last. */
  lemma {:induction false} DirectoryOfRegistry(cs: seq<ClientHandler>)
    ensures forall i :: 0 <= i < |cs| ==> cs[i].clientID in Directory(Infos(cs))
    ensures forall id :: id in Directory(Infos(cs)) ==>
              exists i :: 0 <= i < |cs| && cs[i].clientID == id && Directory(Infos(cs))[id] == Info(cs[i])
  {
    if cs == [] {
    } else {
      var last := |cs| - 1;
      DirectoryOfRegistry(cs[..last]);
      assert Infos(cs)[..last] == Infos(cs[..last]);
      var m, m' := Directory(Infos(cs[..last])), Directory(Infos(cs));
      assert m' == m[cs[last].clientID := Info(cs[last])];
      forall i | 0 <= i < |cs|
        ensures cs[i].clientID in m'
      {
        if i < last {
          assert cs[..last][i] == cs[i];
        }
      }
      forall id | id in m'
        ensures exists i :: 0 <= i < |cs| && cs[i].clientID == id && m'[id] == Info(cs[i])
      {
        if id == cs[last].clientID {
          assert m'[id] == Info(cs[last]);
        } else {
          var i :| 0 <= i < last && cs[..last][i].clientID == id && m[id] == Info(cs[..last][i]);
          assert cs[i].clientID == id && m'[id] == Info(cs[i]);
        }
      }
    }
  }

  /** A client of the server's byte order mirrors the registry it was sent if and only if no two
      entries contradict each other. */
  lemma DirectoryMirrors(host: HostOrder, cs: seq<ClientHandler>)
    requires forall i :: 0 <= i < |cs| ==> |cs[i].ipAddress| < 0x100
    ensures Mirrors(Directory(ParseList(host, EncodeList(host, cs))), cs) <==> Consistent(cs)
  {
    ListRoundTrip(host, host, cs);
    DirectoryOfRegistry(cs);
    var m := Directory(Infos(cs));
    if Mirrors(m, cs) {
      forall i, j | 0 <= i < |cs| && 0 <= j < |cs| && cs[i].clientID == cs[j].clientID
        ensures Info(cs[i]) == Info(cs[j])
      {
        assert m[cs[i].clientID] == Info(cs[i]) && m[cs[j].clientID] == Info(cs[j]);
      }
    }
  }

  /** With distinct ids none do. */
  lemma DistinctIsConsistent(cs: seq<ClientHandler>)
    requires DistinctIds(cs)
    ensures Consistent(cs)
  {
    forall i, j | 0 <= i < |cs| && 0 <= j < |cs| && cs[i].clientID == cs[j].clientID
      ensures Info(cs[i]) == Info(cs[j])
    {
      assert i == j;
    }
  }

  /** A registry is mirrored by one map only. */
  lemma MirrorUnique(m: map<byte, ClientInfo>, m': map<byte, ClientInfo>, cs: seq<ClientHandler>)
    requires Mirrors(m, cs) && Mirrors(m', cs)
    ensures m == m'
  {
    assert forall id :: id in m ==> id in m' && m[id] == m'[id];
    assert forall id :: id in m' ==> id in m;
  }

  lemma {:induction false} EncodeListAppend(host: HostOrder, cs: seq<ClientHandler>, c: ClientHandler)
    ensures EncodeList(host, cs + [c]) == EncodeList(host, cs) + EncodeEntry(host, c)
  {
    if cs == [] {
      assert cs + [c] == [c];
      assert EncodeList(host, [c][1..]) == [];
    } else {
      assert (cs + [c])[1..] == cs[1..] + [c];
      EncodeListAppend(host, cs[1..], c);
      ConcatAssociates(EncodeEntry(host, cs[0]), EncodeList(host, cs[1..]), EncodeEntry(host, c));
    }
  }

  /** One handler's part of the payload-building loop. */
  method WriteEntry(host: HostOrder, c: ClientHandler) returns (entry: seq<byte>)
    ensures entry == EncodeEntry(host, c)
  {
    entry := [c.clientID, |c.ipAddress| % 0x100];
    ghost var head := entry;
    for i := 0 to |c.ipAddress|
      invariant entry == head + c.ipAddress[..i]
    {
      entry := entry + [c.ipAddress[i]];
    }
    assert c.ipAddress[..|c.ipAddress|] == c.ipAddress;
    var netPort := Htons(host, c.port);
    entry := entry + [netPort / 0x100 % 0x100, netPort % 0x100];
  }

  /** The payload-building loop of `notifyClients`. */
  method WriteClientList(host: HostOrder, clients: seq<ClientHandler>) returns (message: seq<byte>)
    ensures message == EncodeList(host, clients)
  {
    message := [];
    for k := 0 to |clients|
      invariant message == EncodeList(host, clients[..k])
    {
      var entry := WriteEntry(host, clients[k]);
      message := message + entry;
      EncodeListAppend(host, clients[..k], clients[k]);
      assert clients[..k + 1] == clients[..k] + [clients[k]];
    }
    assert clients[..|clients|] == clients;
  }

  /** The address-reading loop: as many of the announced bytes as there are. */
  method ReadAddress(ipLen: byte, data: seq<byte>) returns (ip: seq<byte>, temp: seq<byte>)
    ensures ip + temp == data
    ensures |ip| == if |data| < ipLen then |data| else ipLen
  {
    ip, temp := [], data;
    for i := 0 to ipLen
      invariant |ip| == i && ip + temp == data
    {
      if temp == [] { break; }
      ip := ip + [temp[0]];
      temp := temp[1..];
    }
  }

  /** The parsing loop of `updateClientList`: on arbitrary bytes it ends, never pops an empty
      queue, and keeps the complete entries only. */
  method ReadClientList(host: HostOrder, data: seq<byte>) returns (clientInfos: seq<ClientInfo>)
    ensures clientInfos == ParseList(host, data)
  {
    var temp := data;
    clientInfos := [];
    while temp != []
      invariant clientInfos + ParseList(host, temp) == ParseList(host, data)
      decreases |temp|
    {
      ghost var entry := temp;
      var clientID := temp[0];
      temp := temp[1..];
      if temp == [] { break; }
      var ipLen := temp[0];
      temp := temp[1..];
      assert temp == entry[2..];
      var ip;
      ip, temp := ReadAddress(ipLen, temp);
      if |temp| < 2 { break; }
      var info := ClientInfo(clientID, ip, Htons(host, temp[0] as int * 0x100 + temp[1]));
      ParseComplete(host, entry, ip, temp);
      ConcatAssociates(clientInfos, [info], ParseList(host, temp[2..]));
      temp := temp[2..];
      clientInfos := clientInfos + [info];
    }
  }
}
