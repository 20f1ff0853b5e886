/** Packets as bytes: header layout, byte order, and the payloads that the senders of vrr_core.c
    build and the receivers of vrr_input.c take apart. */
module Wire {
  import opened Types

  // ---- Byte order ----

  /** The byte order of a host. */
  datatype Host = LittleEndian | BigEndian

  type Bytes4 = b: seq<u8> | |b| == 4 witness [0, 0, 0, 0]

  /** The four bytes of a word, most significant first. */
  function Bytes32(x: u32): Bytes4 {
    [x / 0x100 / 0x100 / 0x100, x / 0x100 / 0x100 % 0x100, x / 0x100 % 0x100, x % 0x100]
  }

  /** Append a byte to a number. */
  function Join(hi: int, lo: u8): int {
    hi * 0x100 + lo
  }

  function Word(b: Bytes4): u32 {
    Join(Join(Join(b[0], b[1]), b[2]), b[3])
  }

  function Reverse4(b: Bytes4): Bytes4 {
    [b[3], b[2], b[1], b[0]]
  }

  /** How a host keeps a word in memory. */
  function Store(h: Host, x: u32): Bytes4 {
    if h == BigEndian then Bytes32(x) else Reverse4(Bytes32(x))
  }

  function Load(h: Host, b: Bytes4): u32 {
    if h == BigEndian then Word(b) else Word(Reverse4(b))
  }

  /** htonl and ntohl: swap the bytes on a little-endian host. */
  function Htonl(h: Host, x: u32): u32 {
    if h == BigEndian then x else Word(Reverse4(Bytes32(x)))
  }

  lemma WordOfBytes(x: u32)
    ensures Word(Bytes32(x)) == x
  {
  }

  lemma SplitJoined(hi: nat, lo: u8)
    ensures Join(hi, lo) / 0x100 == hi && Join(hi, lo) % 0x100 == lo
  {
  }

  lemma BytesOfWord(b: Bytes4)
    ensures Bytes32(Word(b)) == b
  {
    var hi := Join(b[0], b[1]);
    var mid := Join(hi, b[2]);
    SplitJoined(b[0], b[1]);
    SplitJoined(hi, b[2]);
    SplitJoined(mid, b[3]);
    hide Join;
    assert Word(b) == Join(mid, b[3]);
  }

  /** Whatever the host, a converted word lies in memory most significant byte first, and a
      converted load recovers it. */
  lemma NetworkOrder(h: Host, x: u32)
    ensures Store(h, Htonl(h, x)) == Bytes32(x)
    ensures Htonl(h, Load(h, Bytes32(x))) == x
    ensures var b := Bytes32(x);
            x == (b[0] as int) * 0x100_0000 + (b[1] as int) * 0x1_0000 + (b[2] as int) * 0x100 + b[3]
  {
    WordOfBytes(x);
    BytesOfWord(Reverse4(Bytes32(x)));
  }

  // ---- Sequences of words ----

  function Words(ws: seq<u32>): seq<u8> {
    if ws == [] then [] else Bytes32(ws[0]) + Words(ws[1..])
  }

  function WordAt(bs: seq<u8>, i: nat): u32
    requires 4 * i + 4 <= |bs|
  {
    Word(bs[4 * i..4 * i + 4])
  }

  /** The whole words of a byte string. */
  function WordsOf(bs: seq<u8>): (ws: seq<u32>)
    ensures |ws| == |bs| / 4
  {
    seq(|bs| / 4, i requires 0 <= i < |bs| / 4 => WordAt(bs, i))
  }

  lemma {:induction false} WordsLength(ws: seq<u32>)
    ensures |Words(ws)| == 4 * |ws|
  {
    if ws != [] {
      WordsLength(ws[1..]);
    }
  }

  lemma {:induction false} WordInPlace(ws: seq<u32>, i: nat)
    requires i < |ws|
    ensures |Words(ws)| == 4 * |ws| && Words(ws)[4 * i..4 * i + 4] == Bytes32(ws[i])
  {
    WordsLength(ws);
    WordsLength(ws[1..]);
    if i > 0 {
      WordInPlace(ws[1..], i - 1);
      var tail := Words(ws[1..]);
      assert Words(ws)[4 * i..4 * i + 4] == tail[4 * (i - 1)..4 * (i - 1) + 4];
    }
  }

  /** Reading back what was written gives the same words. */
  lemma WordsRoundTrip(ws: seq<u32>)
    ensures WordsOf(Words(ws)) == ws
  {
    WordsLength(ws);
    forall i | 0 <= i < |ws| ensures WordsOf(Words(ws))[i] == ws[i] {
      WordInPlace(ws, i);
      WordOfBytes(ws[i]);
    }
  }

  /** memcpy of a host's word array into a packet. */
  function StoreAll(h: Host, ws: seq<u32>): seq<u8> {
    if ws == [] then [] else Store(h, ws[0]) + StoreAll(h, ws[1..])
  }

  lemma {:induction false} StoredInNetworkOrder(h: Host, data: seq<u32>, ws: seq<u32>)
    requires |data| == |ws| && forall i | 0 <= i < |ws| :: data[i] == Htonl(h, ws[i])
    ensures StoreAll(h, data) == Words(ws)
  {
    if ws != [] {
      NetworkOrder(h, ws[0]);
      StoredInNetworkOrder(h, data[1..], ws[1..]);
    }
  }

  /** skb_copy_bits of one word at word position i, then ntohl. */
  method CopyWord(h: Host, bs: seq<u8>, i: nat) returns (x: u32)
    requires i < |WordsOf(bs)|
    ensures x == WordsOf(bs)[i]
  {
    var b: Bytes4 := bs[4 * i..4 * i + 4];
    BytesOfWord(b);
    NetworkOrder(h, Word(b));
    x := Htonl(h, Load(h, b));
  }

  /** skb_copy_bits of n words into a buffer, each converted in place. */
  method CopyWords(h: Host, bs: seq<u8>, offset: nat, n: nat) returns (ws: seq<u32>)
    requires offset + n <= |WordsOf(bs)|
    ensures ws == WordsOf(bs)[offset..offset + n]
  {
    var buf := new u32[n];
    for i := 0 to n
      invariant buf[..i] == WordsOf(bs)[offset..offset + i]
    {
      buf[i] := CopyWord(h, bs, offset + i);
    }
    ws := buf[..];
  }

  // ---- Header (struct vrr_header, naturally aligned) ----

  const HEADER_SIZE: nat := 28
  const PF_VRR: u16 := 27

  datatype Header = Header(pktType: u8, dataLen: u16, src: u32, dst: u32, mac: Mac)

  function Bytes16(x: u16): seq<u8> { [x / 0x100, x % 0x100] }

  function MacBytes(m: Mac): seq<u8> {
    Bytes16(m / 0x1_0000_0000) + Bytes32(m % 0x1_0000_0000)
  }

  /** build_header; padding bytes are 0. */
  function HeaderBytes(version: u8, hd: Header): (bs: seq<u8>)
    ensures |bs| == HEADER_SIZE
  {
    [version, hd.pktType] + Bytes16(PF_VRR) + Bytes16(hd.dataLen) + [0, 0, 0, 0, 0, 0]
    + Bytes32(hd.src) + Bytes32(hd.dst) + MacBytes(hd.mac) + [0, 0]
  }

  function ParseHeader(bs: seq<u8>): Header
    requires |bs| >= HEADER_SIZE
  {
    Header(bs[1], Join(bs[4], bs[5]), Word(bs[12..16]), Word(bs[16..20]),
           Join(bs[20], bs[21]) * 0x1_0000_0000 + Word(bs[22..26]))
  }

  lemma HeaderRoundTrip(version: u8, hd: Header, payload: seq<u8>)
    ensures ParseHeader(HeaderBytes(version, hd) + payload) == hd
  {
    var bs := HeaderBytes(version, hd) + payload;
    var lo := hd.mac % 0x1_0000_0000;
    assert bs[12..16] == Bytes32(hd.src);
    assert bs[16..20] == Bytes32(hd.dst);
    assert bs[20..22] == Bytes16(hd.mac / 0x1_0000_0000) && bs[22..26] == Bytes32(lo);
    assert bs[4..6] == Bytes16(hd.dataLen);
    assert bs[4] == bs[4..6][0] && bs[5] == bs[4..6][1] && bs[20] == bs[20..22][0] && bs[21] == bs[20..22][1];
    WordOfBytes(hd.src);
    WordOfBytes(hd.dst);
    WordOfBytes(lo);
  }

  /** Where the fields of struct vrr_header lie. */
  lemma HeaderLayout(version: u8, hd: Header)
    ensures var bs := HeaderBytes(version, hd);
            && bs[0] == version && bs[1] == hd.pktType && bs[2] == 0 && bs[3] == PF_VRR
            && (bs[4] as int) * 0x100 + bs[5] == hd.dataLen
            && bs[12..16] == Bytes32(hd.src) && bs[16..20] == Bytes32(hd.dst)
            && ((bs[20] as int) * 0x100 + bs[21]) * 0x1_0000_0000 + Word(bs[22..26]) == hd.mac
  {
    var bs := HeaderBytes(version, hd);
    HeaderRoundTrip(version, hd, []);
    assert bs + [] == bs;
    assert bs[12..16] == Bytes32(hd.src) && bs[16..20] == Bytes32(hd.dst);
  }

  // ---- Control payloads ----

  datatype Body =
    | SetupReq(proxy: u32, vset: seq<u32>)
    | Setup(pid: u32, proxy: u32, vset: seq<u32>)
    | SetupFail(proxy: u32, vset: seq<u32>)
    | Teardown(ea: u32, pid: u32, vset: seq<u32>)

  function TypeOf(b: Body): u8 {
    match b case SetupReq(_, _) => 2 case Setup(_, _, _) => 3 case SetupFail(_, _) => 4 case Teardown(_, _, _) => 5
  }

  /** The words before the vset size. */
  function Fields(b: Body): seq<u32> {
    match b
    case SetupReq(proxy, _) => [proxy]
    case Setup(pid, proxy, _) => [pid, proxy]
    case SetupFail(proxy, _) => [proxy]
    case Teardown(ea, pid, _) => [ea, pid]
  }

  function BodyWords(b: Body): seq<u32>
    requires |b.vset| <= UINT_MAX
  {
    Fields(b) + [|b.vset|] + b.vset
  }

  function FieldCount(pktType: u8): nat {
    if pktType == 2 || pktType == 4 then 1 else 2
  }

  /** What a receiver makes of the payload words: nothing when they are too short or announce
      more than VRR_VSET_SIZE ids. */
  function ParseBody(pktType: u8, ws: seq<u32>): Option<Body> {
    var n := FieldCount(pktType);
    if |ws| < n + 1 || ws[n] > VRR_VSET_SIZE || |ws| < n + 1 + ws[n] then None
    else
      var vset := ws[n + 1..n + 1 + ws[n]];
      match pktType
      case 2 => Some(SetupReq(ws[0], vset))
      case 3 => Some(Setup(ws[0], ws[1], vset))
      case 4 => Some(SetupFail(ws[0], vset))
      case 5 => Some(Teardown(ws[0], ws[1], vset))
      case _ => None
  }

  /** The order of the words, by packet type. */
  lemma BodyLayout(b: Body)
    requires |b.vset| <= UINT_MAX
    ensures var ws := BodyWords(b);
            match b
            case SetupReq(proxy, vset) => TypeOf(b) == 2 && ws[..2] == [proxy, |vset|] && ws[2..] == vset
            case Setup(pid, proxy, vset) => TypeOf(b) == 3 && ws[..3] == [pid, proxy, |vset|] && ws[3..] == vset
            case SetupFail(proxy, vset) => TypeOf(b) == 4 && ws[..2] == [proxy, |vset|] && ws[2..] == vset
            case Teardown(ea, pid, vset) => TypeOf(b) == 5 && ws[..3] == [ea, pid, |vset|] && ws[3..] == vset
  {
  }

  lemma ParseEncodedWords(b: Body)
    requires |b.vset| <= UINT_MAX
    ensures ParseBody(TypeOf(b), BodyWords(b)) == if |b.vset| <= VRR_VSET_SIZE then Some(b) else None
  {
    var ws, n := BodyWords(b), |Fields(b)|;
    assert ws[n] == |b.vset| && ws[n + 1..n + 1 + |b.vset|] == b.vset;
  }

  /** Decoding what was encoded returns the same fields and vset when the vset is small enough,
      and rejects the packet otherwise. */
  lemma BodyRoundTrip(b: Body)
    requires |b.vset| <= UINT_MAX
    ensures ParseBody(TypeOf(b), WordsOf(Words(BodyWords(b)))) == if |b.vset| <= VRR_VSET_SIZE then Some(b) else None
  {
    WordsRoundTrip(BodyWords(b));
    ParseEncodedWords(b);
  }

  /** Words converted one by one at a running index, then copied into the packet. */
  method SendWords(h: Host, ws: seq<u32>) returns (payload: seq<u8>)
    ensures payload == Words(ws)
  {
    var data := new u32[|ws|];
    var p := 0;
    while p < |ws|
      invariant p <= |ws| && forall i | 0 <= i < p :: data[i] == Htonl(h, ws[i])
    {
      data[p] := Htonl(h, ws[p]);
      p := p + 1;
    }
    StoredInNetworkOrder(h, data[..], ws);
    payload := StoreAll(h, data[..]);
  }

  /** The payload of the control-packet senders: fixed words, size, then the vset. */
  method EncodeBody(h: Host, b: Body) returns (payload: seq<u8>)
    requires |b.vset| <= UINT_MAX
    ensures payload == Words(BodyWords(b))
  {
    payload := SendWords(h, Fields(b) + [|b.vset|] + b.vset);
  }

  /** The common shape of the control-packet receivers: words at a running offset, the size
      check, then the vset. */
  method DecodeBody(h: Host, pktType: u8, payload: seq<u8>) returns (b: Option<Body>)
    requires 2 <= pktType <= 5
    ensures b == ParseBody(pktType, WordsOf(payload))
  {
    var n := FieldCount(pktType);
    if |payload| / 4 < n + 1 {
      return None;
    }
    var offset := 0;
    var first := CopyWord(h, payload, offset);
    offset := offset + 1;
    var second := 0;
    if n == 2 {
      second := CopyWord(h, payload, offset);
      offset := offset + 1;
    }
    var size := CopyWord(h, payload, offset);
    offset := offset + 1;
    if size > VRR_VSET_SIZE || |payload| / 4 < offset + size {
      return None;
    }
    var vset := CopyWords(h, payload, offset, size);
    match pktType
    case 2 => return Some(SetupReq(first, vset));
    case 3 => return Some(Setup(first, second, vset));
    case 4 => return Some(SetupFail(first, vset));
    case 5 => return Some(Teardown(first, second, vset));
  }

  /** build_header's data_len: the payload size in bytes, cut to 16 bits. */
  function DataLen(words: nat): u16 {
    4 * words % 0x1_0000
  }

  function Packet(version: u8, hd: Header, ws: seq<u32>): seq<u8> {
    HeaderBytes(version, hd) + Words(ws)
  }

  /** A whole control packet: the receiver reads back header and payload as they were sent. */
  lemma ControlPacketRoundTrip(version: u8, src: u32, dst: u32, mac: Mac, b: Body)
    requires |b.vset| <= UINT_MAX
    ensures var hd := Header(TypeOf(b), DataLen(|BodyWords(b)|), src, dst, mac);
            var pkt := Packet(version, hd, BodyWords(b));
            && ParseHeader(pkt) == hd
            && ParseBody(hd.pktType, WordsOf(pkt[HEADER_SIZE..])) == if |b.vset| <= VRR_VSET_SIZE then Some(b) else None
  {
    var hd := Header(TypeOf(b), DataLen(|BodyWords(b)|), src, dst, mac);
    HeaderRoundTrip(version, hd, Words(BodyWords(b)));
    assert Packet(version, hd, BodyWords(b))[HEADER_SIZE..] == Words(BodyWords(b));
    BodyRoundTrip(b);
  }

  // ---- Hello payload ----

  datatype Hello = Hello(active: u32, la: seq<u32>, lna: seq<u32>, pend: seq<u32>)

  /** Every list is short enough for its receiver. */
  predicate Readable(x: Hello) {
    |x.la| <= VRR_PSET_SIZE && |x.lna| <= VRR_PSET_SIZE && |x.pend| <= VRR_PSET_SIZE
  }

  /** The sizes of the lists are words. */
  ghost predicate Countable(x: Hello) {
    |x.la| <= UINT_MAX && |x.lna| <= UINT_MAX && |x.pend| <= UINT_MAX
  }

  function HelloWords(x: Hello): seq<u32>
    requires Countable(x)
  {
    [x.active, |x.la|, |x.lna|, |x.pend|] + x.la + x.lna + x.pend
  }

  /** vrr_rcv_hello's view of the payload: nothing when it is too short or a list is too long. */
  function ParseHello(ws: seq<u32>): Option<Hello> {
    if |ws| < 4 || ws[1] > VRR_PSET_SIZE || ws[2] > VRR_PSET_SIZE || ws[3] > VRR_PSET_SIZE
       || |ws| < 4 + ws[1] + ws[2] + ws[3] then None
    else
      var a := 4 + ws[1];
      var n := a + ws[2];
      Some(Hello(ws[0], ws[4..a], ws[a..n], ws[n..n + ws[3]]))
  }

  /** The order of the words of a hello. */
  lemma HelloLayout(x: Hello)
    requires Countable(x)
    ensures HelloWords(x)[..4] == [x.active, |x.la|, |x.lna|, |x.pend|]
    ensures var ws, a := HelloWords(x), 4 + |x.la|;
            ws[4..a] == x.la && ws[a..a + |x.lna|] == x.lna && ws[a + |x.lna|..] == x.pend
  {
  }

  lemma ParseHelloWords(x: Hello)
    requires Countable(x)
    ensures ParseHello(HelloWords(x)) == if Readable(x) then Some(x) else None
  {
    var ws := HelloWords(x);
    var a, n := 4 + |x.la|, 4 + |x.la| + |x.lna|;
    assert ws[4..a] == x.la;
    assert ws[a..n] == x.lna;
    assert ws[n..n + |x.pend|] == x.pend;
  }

  lemma HelloRoundTrip(x: Hello)
    requires Countable(x)
    ensures ParseHello(WordsOf(Words(HelloWords(x)))) == if Readable(x) then Some(x) else None
  {
    WordsRoundTrip(HelloWords(x));
    ParseHelloWords(x);
  }

  /** What a decoded hello says about node me: the three scans in their order, the last match
      winning. */
  function Says(x: Hello, me: u32): Trans {
    if me in x.pend then SaysPending
    else if me in x.la || me in x.lna then SaysLinked
    else SaysMissing
  }

  /** For any lists, also if they overlap: the pending list is scanned last and wins. */
  lemma PendingWins(x: Hello, me: u32)
    ensures Says(x, me) == SaysPending <==> me in x.pend
    ensures Says(x, me) == SaysLinked <==> me !in x.pend && (me in x.la || me in x.lna)
    ensures Says(x, me) == SaysMissing <==> me !in x.la && me !in x.lna && me !in x.pend
  {
  }

  /** One of the three scan loops of vrr_rcv_hello. */
  method Scan(ids: seq<u32>, me: u32, found: Trans, before: Trans) returns (trans: Trans)
    ensures trans == if me in ids then found else before
  {
    trans := before;
    for i := 0 to |ids|
      invariant trans == if me in ids[..i] then found else before
    {
      if ids[i] == me {
        trans := found;
      }
    }
    assert ids[..|ids|] == ids;
  }

  /** The three scans together. */
  method ScanHello(x: Hello, me: u32) returns (trans: Trans)
    ensures trans == Says(x, me)
  {
    trans := SaysMissing;
    trans := Scan(x.la, me, SaysLinked, trans);
    trans := Scan(x.lna, me, SaysLinked, trans);
    trans := Scan(x.pend, me, SaysPending, trans);
  }

  /** The decoding part of vrr_rcv_hello, with its running offset. */
  method DecodeHello(h: Host, payload: seq<u8>) returns (x: Option<Hello>)
    ensures x == ParseHello(WordsOf(payload))
  {
    if |payload| / 4 < 4 {
      return None;
    }
    var active := CopyWord(h, payload, 0);
    var laSize := CopyWord(h, payload, 1);
    var lnaSize := CopyWord(h, payload, 2);
    var pSize := CopyWord(h, payload, 3);
    if laSize > VRR_PSET_SIZE || lnaSize > VRR_PSET_SIZE || pSize > VRR_PSET_SIZE
       || |payload| / 4 < 4 + laSize + lnaSize + pSize {
      return None;
    }
    var offset := 4;
    var la := CopyWords(h, payload, offset, laSize);
    offset := offset + laSize;
    var lna := CopyWords(h, payload, offset, lnaSize);
    offset := offset + lnaSize;
    var p := CopyWords(h, payload, offset, pSize);
    return Some(Hello(active, la, lna, p));
  }
}
