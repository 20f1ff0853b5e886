/** Setups and teardowns of the network as frames: the bytes that the senders of vrr_core.c hand to
    the device and what the receivers of vrr_input.c make of them. */
module Frames {
  import opened Types
  import P = PhysicalSet
  import N = Network
  import W = Wire

  function SetupBody(s: N.SetupPkt): W.Body { W.Setup(s.pid, s.proxy, s.vset) }
  function TeardownBody(t: N.TeardownPkt): W.Body { W.Teardown(t.ea, t.pid, t.vset) }

  function BodyFrame(version: u8, src: u32, dst: u32, to: Mac, b: W.Body): seq<u8>
    requires |b.vset| <= UINT_MAX
  {
    W.Packet(version, W.Header(W.TypeOf(b), W.DataLen(|W.BodyWords(b)|), src, dst, to), W.BodyWords(b))
  }

  /** The frame of send_setup. */
  function SetupFrame(version: u8, s: N.SetupPkt): seq<u8>
    requires |s.vset| <= UINT_MAX
  {
    BodyFrame(version, s.src, s.dst, s.to, SetupBody(s))
  }

  /** The frame of send_teardown; its header names the next node as destination. */
  function TeardownFrame(version: u8, t: N.TeardownPkt, dst: u32): seq<u8>
    requires |t.vset| <= UINT_MAX
  {
    BodyFrame(version, t.src, dst, t.to, TeardownBody(t))
  }

  /** The frame of send_hpkt, broadcast. */
  function HelloFrame(version: u8, src: u32, x: W.Hello): seq<u8>
    requires W.Countable(x)
  {
    W.Packet(version, W.Header(1, W.DataLen(|W.HelloWords(x)|), src, 0, 0xFFFF_FFFF_FFFF), W.HelloWords(x))
  }

  /** The header of a hello in front of its payload. */
  method EncodeHello(version: u8, src: u32, payload: seq<u8>, ghost x: W.Hello) returns (frame: seq<u8>)
    requires W.Countable(x) && payload == W.Words(W.HelloWords(x))
    ensures frame == HelloFrame(version, src, x)
  {
    W.WordsLength(W.HelloWords(x));
    var words := |payload| / 4;
    frame := W.HeaderBytes(version, W.Header(1, W.DataLen(words), src, 0, 0xFFFF_FFFF_FFFF)) + payload;
  }

  method EncodeFrame(h: W.Host, version: u8, src: u32, dst: u32, to: Mac, b: W.Body) returns (frame: seq<u8>)
    requires |b.vset| <= UINT_MAX
    ensures frame == BodyFrame(version, src, dst, to, b)
  {
    var payload := W.EncodeBody(h, b);
    W.WordsLength(W.BodyWords(b));
    var words := |payload| / 4;
    frame := W.HeaderBytes(version, W.Header(W.TypeOf(b), W.DataLen(words), src, dst, to)) + payload;
  }

  /** A vset that is too long to be read; only its length matters. */
  const UNREAD: seq<u32> := [0, 0, 0, 0, 0]

  /** What is left of a payload whose vset is announced too long: its two leading words. */
  function Announced(ws: seq<u32>): Option<(u32, u32)> {
    if |ws| >= 3 && ws[2] > VRR_VSET_SIZE then Some((ws[0], ws[1])) else None
  }

  /** The setup in a payload; none when it is shorter than it announces. */
  function DecodeSetup(hd: W.Header, from: Mac, payload: seq<u8>): Option<N.SetupPkt> {
    var ws := W.WordsOf(payload);
    match W.ParseBody(3, ws)
    case Some(b) => if b.Setup? then Some(N.SetupPkt(hd.src, hd.dst, b.pid, b.proxy, b.vset, from, hd.mac)) else None
    case None =>
      match Announced(ws)
      case Some((pid, proxy)) => Some(N.SetupPkt(hd.src, hd.dst, pid, proxy, UNREAD, from, hd.mac))
      case None => None
  }

  /** The teardown in a payload. */
  function DecodeTeardown(hd: W.Header, from: Mac, payload: seq<u8>): Option<N.TeardownPkt> {
    var ws := W.WordsOf(payload);
    match W.ParseBody(5, ws)
    case Some(b) => if b.Teardown? then Some(N.TeardownPkt(hd.src, b.ea, b.pid, b.vset, from, hd.mac)) else None
    case None =>
      match Announced(ws)
      case Some((ea, pid)) => Some(N.TeardownPkt(hd.src, ea, pid, UNREAD, from, hd.mac))
      case None => None
  }

  method ReadAnnounced(h: W.Host, payload: seq<u8>) returns (r: Option<(u32, u32)>)
    ensures r == Announced(W.WordsOf(payload))
  {
    if |payload| / 4 < 3 {
      return None;
    }
    var first := W.CopyWord(h, payload, 0);
    var second := W.CopyWord(h, payload, 1);
    var size := W.CopyWord(h, payload, 2);
    return if size > VRR_VSET_SIZE then Some((first, second)) else None;
  }

  method ReadSetup(h: W.Host, hd: W.Header, from: Mac, payload: seq<u8>) returns (s: Option<N.SetupPkt>)
    ensures s == DecodeSetup(hd, from, payload)
  {
    hide W.ParseBody;
    var b := W.DecodeBody(h, 3, payload);
    match b
    case Some(x) =>
      if x.Setup? {
        return Some(N.SetupPkt(hd.src, hd.dst, x.pid, x.proxy, x.vset, from, hd.mac));
      }
      return None;
    case None =>
      var a := ReadAnnounced(h, payload);
      if a == None {
        return None;
      }
      return Some(N.SetupPkt(hd.src, hd.dst, a.value.0, a.value.1, UNREAD, from, hd.mac));
  }

  method ReadTeardown(h: W.Host, hd: W.Header, from: Mac, payload: seq<u8>) returns (t: Option<N.TeardownPkt>)
    ensures t == DecodeTeardown(hd, from, payload)
  {
    hide W.ParseBody;
    var b := W.DecodeBody(h, 5, payload);
    match b
    case Some(x) =>
      if x.Teardown? {
        return Some(N.TeardownPkt(hd.src, x.ea, x.pid, x.vset, from, hd.mac));
      }
      return None;
    case None =>
      var a := ReadAnnounced(h, payload);
      if a == None {
        return None;
      }
      return Some(N.TeardownPkt(hd.src, a.value.0, a.value.1, UNREAD, from, hd.mac));
  }

  // ---- What a frame does to the node that receives it ----

  /** vrr_rcv on a whole frame, for the packets that hellos, setups and teardowns travel in; of the
      others only the prologue counts here. */
  function Received(me: u32, mac: Mac, n: N.Node, from: Mac, frame: seq<u8>, added: bool): N.Outcome {
    if |frame| < W.HEADER_SIZE || W.ParseHeader(frame).pktType >= 6 then N.Quietly(n)
    else
      var hd, payload := W.ParseHeader(frame), frame[W.HEADER_SIZE..];
      if hd.pktType == 1 then
        match W.ParseHello(W.WordsOf(payload))
        case None => N.Quietly(N.Accept(n, hd.src))
        case Some(x) => N.Quietly(N.RcvHello(me, n, N.HelloPkt(hd.src, x, from, 0)))
      else if hd.pktType == 3 then
        match DecodeSetup(hd, from, payload)
        case None => N.Quietly(N.Accept(n, hd.src))
        case Some(s) => N.RcvSetup(me, mac, n, s, added)
      else if hd.pktType == 5 then
        match DecodeTeardown(hd, from, payload)
        case None => N.Quietly(N.Accept(n, hd.src))
        case Some(t) => N.RcvTeardown(me, mac, n, t)
      else N.Quietly(N.Accept(n, hd.src))
  }

  lemma AnnouncedBody(b: W.Body)
    requires (b.Setup? || b.Teardown?) && VRR_VSET_SIZE < |b.vset| <= UINT_MAX
    ensures Announced(W.BodyWords(b)) == Some((W.Fields(b)[0], W.Fields(b)[1]))
  {
  }

  /** A setup frame holds its setup, or, if the vset is too long, all but the vset. */
  lemma SetupIsDecoded(version: u8, s: N.SetupPkt)
    requires |s.vset| <= UINT_MAX
    ensures var frame := SetupFrame(version, s);
            && |frame| >= W.HEADER_SIZE && W.ParseHeader(frame).pktType == 3
            && DecodeSetup(W.ParseHeader(frame), s.from, frame[W.HEADER_SIZE..])
               == Some(if |s.vset| <= VRR_VSET_SIZE then s else s.(vset := UNREAD))
  {
    var b, frame := SetupBody(s), SetupFrame(version, s);
    W.ControlPacketRoundTrip(version, s.src, s.dst, s.to, b);
    W.WordsRoundTrip(W.BodyWords(b));
    assert frame[W.HEADER_SIZE..] == W.Words(W.BodyWords(b));
    hide W.ParseHeader, W.ParseBody, W.Words, W.WordsOf, W.HeaderBytes, W.BodyWords;
    if |s.vset| > VRR_VSET_SIZE {
      AnnouncedBody(b);
    }
  }

  lemma TeardownIsDecoded(version: u8, t: N.TeardownPkt, dst: u32)
    requires |t.vset| <= UINT_MAX
    ensures var frame := TeardownFrame(version, t, dst);
            && |frame| >= W.HEADER_SIZE && W.ParseHeader(frame).pktType == 5
            && DecodeTeardown(W.ParseHeader(frame), t.from, frame[W.HEADER_SIZE..])
               == Some(if |t.vset| <= VRR_VSET_SIZE then t else t.(vset := UNREAD))
  {
    var b, frame := TeardownBody(t), TeardownFrame(version, t, dst);
    W.ControlPacketRoundTrip(version, t.src, dst, t.to, b);
    W.WordsRoundTrip(W.BodyWords(b));
    assert frame[W.HEADER_SIZE..] == W.Words(W.BodyWords(b));
    hide W.ParseHeader, W.ParseBody, W.Words, W.WordsOf, W.HeaderBytes, W.BodyWords;
    if |t.vset| > VRR_VSET_SIZE {
      AnnouncedBody(b);
    }
  }

  /** A setup frame does to its receiver what the network's delivery of that setup does, also when
      its vset is too long to be read. */
  lemma SetupFrameIsDelivery(version: u8, me: u32, mac: Mac, n: N.Node, s: N.SetupPkt, added: bool)
    requires |s.vset| <= UINT_MAX
    ensures Received(me, mac, n, s.from, SetupFrame(version, s), added) == N.RcvSetup(me, mac, n, s, added)
  {
    SetupIsDecoded(version, s);
    hide W.ParseHeader, DecodeSetup, SetupFrame, N.TearDownPath, N.Accept;
  }

  /** A teardown frame does to its receiver what the network's delivery of that teardown does. */
  lemma TeardownFrameIsDelivery(version: u8, me: u32, mac: Mac, n: N.Node, t: N.TeardownPkt, dst: u32, added: bool)
    requires |t.vset| <= UINT_MAX
    ensures Received(me, mac, n, t.from, TeardownFrame(version, t, dst), added) == N.RcvTeardown(me, mac, n, t)
  {
    TeardownIsDecoded(version, t, dst);
    hide W.ParseHeader, DecodeTeardown, TeardownFrame, N.Accept;
  }

  /** A hello frame does to its receiver what the network's delivery of that hello does. */
  lemma HelloFrameIsDelivery(version: u8, me: u32, mac: Mac, n: N.Node, h: N.HelloPkt, added: bool)
    requires W.Countable(h.content)
    ensures Received(me, mac, n, h.from, HelloFrame(version, h.src, h.content), added)
            == N.Quietly(N.RcvHello(me, n, h))
  {
    var x, frame := h.content, HelloFrame(version, h.src, h.content);
    var hd := W.Header(1, W.DataLen(|W.HelloWords(x)|), h.src, 0, 0xFFFF_FFFF_FFFF);
    W.HeaderRoundTrip(version, hd, W.Words(W.HelloWords(x)));
    W.HelloRoundTrip(x);
    assert frame[W.HEADER_SIZE..] == W.Words(W.HelloWords(x));
    hide W.ParseHeader, W.ParseHello, W.Words, W.WordsOf, W.HeaderBytes, W.HelloWords, N.Accept;
  }

  /** A data, setup_req or setup_fail frame, whatever its payload: it is the network's other delivery.
      The source's fail count and the active timeout are 0 afterwards, and nothing else changes. */
  lemma OtherFrameIsDelivery(me: u32, mac: Mac, n: N.Node, from: Mac, frame: seq<u8>, added: bool)
    requires |frame| >= W.HEADER_SIZE && W.ParseHeader(frame).pktType in {0, 2, 4}
    ensures var src, o := W.ParseHeader(frame).src, Received(me, mac, n, from, frame, added);
            && o == N.Act(me, mac, n, N.DeliverOther(me, src)) && o.setups == multiset{} && o.teardowns == multiset{}
            && o.node == n.(timeout := 0, pset := o.node.pset) && |o.node.pset| == |n.pset|
            && (P.Contains(n.pset, src) ==> o.node.pset[P.IndexOf(n.pset, src)].fail == 0)
            && forall i | 0 <= i < |n.pset| ::
                 o.node.pset[i] == if i == P.IndexOf(n.pset, src) then n.pset[i].(fail := 0) else n.pset[i]
  {
    hide W.ParseHeader;
  }

  /** A frame without a whole header, or of a type that does not exist, changes nothing. */
  lemma UnknownFrameIsDropped(me: u32, mac: Mac, n: N.Node, from: Mac, frame: seq<u8>, added: bool)
    requires |frame| < W.HEADER_SIZE || W.ParseHeader(frame).pktType >= 6
    ensures Received(me, mac, n, from, frame, added) == N.Outcome(n, multiset{}, multiset{})
  {
  }

  /** What the headers of the frames say: type, length of the payload in 16 bits, source, destination
      and hardware address. */
  lemma FrameHeaders(version: u8, s: N.SetupPkt, t: N.TeardownPkt, dst: u32)
    requires |s.vset| <= UINT_MAX && |t.vset| <= UINT_MAX
    ensures var f := SetupFrame(version, s);
            W.ParseHeader(f) == W.Header(3, (|f| - W.HEADER_SIZE) % 0x1_0000, s.src, s.dst, s.to)
    ensures var f := TeardownFrame(version, t, dst);
            W.ParseHeader(f) == W.Header(5, (|f| - W.HEADER_SIZE) % 0x1_0000, t.src, dst, t.to)
  {
    hide W.ParseHeader, W.Packet, W.BodyWords;
    PacketHeader(version, 3, s.src, s.dst, s.to, W.BodyWords(SetupBody(s)));
    PacketHeader(version, 5, t.src, dst, t.to, W.BodyWords(TeardownBody(t)));
  }

  /** Hellos are broadcast. */
  lemma HelloHeader(version: u8, src: u32, x: W.Hello)
    requires W.Countable(x)
    ensures var f := HelloFrame(version, src, x);
            W.ParseHeader(f) == W.Header(1, (|f| - W.HEADER_SIZE) % 0x1_0000, src, 0, 0xFFFF_FFFF_FFFF)
  {
    hide W.ParseHeader, W.Packet, W.HelloWords;
    PacketHeader(version, 1, src, 0, 0xFFFF_FFFF_FFFF, W.HelloWords(x));
  }

  lemma PacketHeader(version: u8, pktType: u8, src: u32, dst: u32, to: Mac, ws: seq<u32>)
    ensures var f := W.Packet(version, W.Header(pktType, W.DataLen(|ws|), src, dst, to), ws);
            && |f| == W.HEADER_SIZE + 4 * |ws|
            && W.ParseHeader(f) == W.Header(pktType, (|f| - W.HEADER_SIZE) % 0x1_0000, src, dst, to)
  {
    hide W.ParseHeader, W.HeaderBytes, W.Words;
    W.WordsLength(ws);
    W.HeaderRoundTrip(version, W.Header(pktType, W.DataLen(|ws|), src, dst, to), W.Words(ws));
  }
}
