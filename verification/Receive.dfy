// Parsing a packet (qsrx/babeld/message.c:121-160, 203-480), and the whole way of a packet from the
// sending buffer to the receiver's route updates.
module Receive {
  import opened Util
  import opened Prefix
  import opened Wire
  import opened WireProofs
  import opened SendBuffer

  const PACKET_MAGIC: u8 := 42
  const PACKET_VERSION: u8 := 2

  predicate LinkLocal(a: Addr) {
    a[..8] == [0xFE, 0x80, 0, 0, 0, 0, 0, 0]
  }

  // The body of a packet: what the header says, as far as the packet goes.
  function BodyOf(packet: Bytes): Bytes
    requires |packet| >= 4
  {
    packet[4..4 + Min(U16At(packet, 2), |packet| - 4)]
  }

  // What a packet tells the receiver.
  function PacketEvents(packet: Bytes, rx: Receiver): seq<Event> {
    if !LinkLocal(rx.from) || |packet| < 4 || packet[0] != PACKET_MAGIC || packet[1] != PACKET_VERSION then []
    else ParseBody(FRESH, BodyOf(packet), rx).0
  }

  function Told(event: Option<Event>): seq<Event> {
    match event case Some(e) => [e] case None => []
  }

  // One message of the parsing loop, seen from the rest of the body.
  lemma ParseStepAt(dec: Decoder, m: Bytes, rx: Receiver)
    requires m != [] && m[0] != MESSAGE_PAD1 && ByteAt(m, 1) <= |m|
    ensures var len := ByteAt(m, 1);
            var (event, dec') := ParseMessage(dec, m, len, rx);
            ParseBody(dec, m, rx).0 == Told(event) + ParseBody(dec', m[Min(len + 2, |m|)..], rx).0
  {
  }

  // parse_route_attributes: the loop over the attributes after an update.
  method ParseRouteAttributes(m: Bytes, a: nat, alen: nat, assumed: Bytes) returns (channels: Bytes)
    ensures channels == ParseAttributes(m, a, alen, 0, assumed)
  {
    var i := 0;
    channels := assumed;
    while i < alen
      invariant ParseAttributes(m, a, alen, 0, assumed) == ParseAttributes(m, a, alen, i, channels)
      decreases alen - i
    {
      var kind := ByteAt(m, a + i);
      if kind == 0 {
        i := i + 1;
        continue;
      }
      var len := ByteAt(m, a + i + 1);
      if i + len > alen {
        return;
      }
      if kind == 2 {
        if len > DIVERSITY_HOPS {
          len := DIVERSITY_HOPS;
        }
        if 0 in BytesAt(m, a + i + 2, len) {
          return;
        }
        channels := BytesAt(m, a + i + 2, len);
      }
      i := i + len + 2;
    }
  }

  // parse_packet: the checks on the header.
  method ParsePacket(packet: Bytes, rx: Receiver) returns (events: seq<Event>)
    ensures events == PacketEvents(packet, rx)
  {
    if !LinkLocal(rx.from) || |packet| < 4 || packet[0] != PACKET_MAGIC || packet[1] != PACKET_VERSION {
      return [];
    }
    var bodylen := U16At(packet, 2);
    if bodylen + 4 > |packet| {
      bodylen := |packet| - 4;
    }
    events := ParseMessages(packet[4..4 + bodylen], rx);
  }

  // One turn of the loop: how far it moves on, 0 to give up on a truncated message.
  method ParseOne(m: Bytes, dec: Decoder, rx: Receiver) returns (step: nat, event: Option<Event>, dec': Decoder)
    requires m != []
    ensures step <= |m|
    ensures ParseBody(dec, m, rx).0 == if step == 0 then [] else Told(event) + ParseBody(dec', m[step..], rx).0
  {
    if m[0] == MESSAGE_PAD1 {
      return 1, None, dec;
    }
    var len := ByteAt(m, 1);
    if len > |m| {
      return 0, None, dec;
    }
    ParseStepAt(dec, m, rx);
    var (e, d) := ParseMessage(dec, m, len, rx);
    return Min(len + 2, |m|), e, d;
  }

  // The same within the body, of which events have been told so far; all is what it tells in the end.
  method Advance(events: seq<Event>, body: Bytes, i: nat, dec: Decoder, rx: Receiver, ghost all: seq<Event>)
    returns (events': seq<Event>, next: nat, dec': Decoder)
    requires i < |body| && all == events + ParseBody(dec, body[i..], rx).0
    ensures i <= next <= |body|
    ensures all == if next == i then events' else events' + ParseBody(dec', body[next..], rx).0
  {
    var step, event;
    step, event, dec' := ParseOne(body[i..], dec, rx);
    next := i + step;
    if step == 0 {
      assert events + [] == events;
      events' := events;
    } else {
      assert body[i..][step..] == body[next..];
      Associative(events, Told(event), ParseBody(dec', body[next..], rx).0);
      events' := events + Told(event);
    }
  }

  // parse_packet: the loop over the messages of a packet body.
  method ParseMessages(body: Bytes, rx: Receiver) returns (events: seq<Event>)
    ensures events == ParseBody(FRESH, body, rx).0
  {
    events := [];
    var i: nat, dec := 0, FRESH;
    ghost var all := ParseBody(FRESH, body, rx).0;
    assert body[0..] == body && [] + all == all;
    while i < |body|
      invariant i <= |body| && all == events + ParseBody(dec, body[i..], rx).0
      decreases |body| - i
    {
      var next;
      events, next, dec := Advance(events, body, i, dec, rx, all);
      if next == i {
        return;
      }
      i := next;
    }
  }

  // ---- end to end

  function Framed(body: Bytes): Bytes
    requires |body| < 0x1_0000
  {
    [PACKET_MAGIC, PACKET_VERSION] + U16(|body|) + body
  }

  lemma FramedBody(body: Bytes)
    requires |body| < 0x1_0000
    ensures BodyOf(Framed(body)) == body
  {
    var p := Framed(body);
    assert p[2] == |body| / 0x100 && p[3] == |body| % 0x100;
    assert p[4..] == body;
  }

  // Only a packet from a link-local address with the protocol's magic number and version tells anything, and what
  // follows its body is ignored.
  lemma OnlyFramed(packet: Bytes, rx: Receiver)
    ensures PacketEvents(packet, rx) != []
            ==> LinkLocal(rx.from) && |packet| >= 4 && packet[..2] == [PACKET_MAGIC, PACKET_VERSION]
  {
  }

  lemma TrailerIgnored(body: Bytes, trailer: Bytes, rx: Receiver)
    requires |body| < 0x1_0000
    ensures PacketEvents(Framed(body) + trailer, rx) == PacketEvents(Framed(body), rx)
  {
    var p := Framed(body);
    assert (p + trailer)[..4] == p[..4] && (p + trailer)[4..4 + |body|] == body;
    assert U16At(p + trailer, 2) == |body| && BodyOf(p + trailer) == body;
    FramedBody(body);
  }

  // A packet that arrives cut short between two messages tells the items in front of the cut.
  lemma CutHeard(items: seq<Item>, more: Bytes, rx: Receiver)
    requires ItemsOk(items) && LinkLocal(rx.from) && |Body(BLANK, items)| + |more| < 0x1_0000
    ensures var body := Body(BLANK, items);
            PacketEvents(Framed(body + more)[..4 + |body|], rx) == HeardAll(items, rx)
  {
    var body := Body(BLANK, items);
    var p, cut := Framed(body + more), Framed(body + more)[..4 + |body|];
    assert cut[..4] == p[..4] && p[4..] == body + more && cut[4..] == body;
    assert p[2] == (|body| + |more|) / 0x100 && p[3] == (|body| + |more|) % 0x100;
    assert U16At(cut, 2) == |body| + |more| && BodyOf(cut) == body;
    PacketRoundTrip(items, rx);
  }

  // What a receiver learns from a run of packets, all of them received in order.
  function HeardFrom(packets: seq<Packet>, rx: Receiver): seq<Event>
    requires forall i :: 0 <= i < |packets| ==> |packets[i].body| < 0x1_0000
  {
    if packets == [] then [] else PacketEvents(Framed(packets[0].body), rx) + HeardFrom(packets[1..], rx)
  }

  // A flushed packet is cut exactly into messages and tells precisely the items put into it.
  lemma CarriedHeard(body: Bytes, items: seq<Item>, size: nat, rx: Receiver)
    requires SendBuffer.Carries(body, items, size) && size < 0x1_0000 && LinkLocal(rx.from)
    ensures Tiled(body) && PacketEvents(Framed(body), rx) == HeardAll(items, rx)
  {
    BodyTiled(BLANK, items);
    FramedBody(body);
    PacketRoundTrip(items, rx);
  }

  ghost predicate AllCarry(packets: seq<Packet>, groups: seq<seq<Item>>, size: nat) {
    |packets| == |groups| && forall i :: 0 <= i < |packets| ==> SendBuffer.Carries(packets[i].body, groups[i], size)
  }

  lemma {:induction false} GroupsHeard(packets: seq<Packet>, groups: seq<seq<Item>>, size: nat, rx: Receiver)
    requires AllCarry(packets, groups, size) && size < 0x1_0000 && LinkLocal(rx.from)
    ensures HeardFrom(packets, rx) == HeardAll(Flatten(groups), rx)
  {
    if packets == [] {
    } else {
      CarriedHeard(packets[0].body, groups[0], size, rx);
      GroupsHeard(packets[1..], groups[1..], size, rx);
      HeardAllConcat(groups[0], Flatten(groups[1..]), rx);
    }
  }

  // Over every run of the sender: once the buffer is flushed, the packets together tell exactly what
  // was handed to the send functions since the start, in order.
  lemma EverythingHeard(out: SendBuffer, rx: Receiver)
    requires out.Valid() && out.buffered == 0 && out.sendbuf.Length < 0x1_0000 && LinkLocal(rx.from)
    ensures HeardFrom(out.flushed, rx) == HeardAll(out.History(), rx)
  {
    assert out.Content() == [];
    SendBuffer.EmptyBody(BLANK, out.items);
    assert out.History() == Flatten(out.done);
    GroupsHeard(out.flushed, out.done, out.sendbuf.Length, rx);
  }
}
