// The receiver hears exactly what the sender put into a packet, in order: a simulation between the
// compression states of the two sides.
module WireProofs {
  import opened Util
  import opened Prefix
  import opened Wire

  function V4Addr(ip: Ip4): (a: Addr)
    ensures V4Mapped(a)
  {
    V4PREFIX + ip
  }

  // Everything the sender relies on is known to the receiver.
  ghost predicate InStep(enc: Encoder, dec: Decoder) {
    && (enc.id.Some? ==> dec.id == enc.id)
    && (enc.nh.Some? ==> dec.v4Nh == Some(V4Addr(enc.nh.value)))
    && PrefixInStep(enc, dec)
  }

  ghost predicate PrefixInStep(enc: Encoder, dec: Decoder) {
    (enc.prefix.Some? ==> dec.v6Prefix == enc.prefix && !V4Mapped(enc.prefix.value)) && dec.v6Nh.None?
  }

  // The channel list the receiver notes: the one sent, or what the metric suggests.
  function NotedChannels(a: Advert, rx: Receiver): Bytes {
    if rx.faraway then []
    else match a.channels
      case Some(c) => c
      case None => if a.metric < 256 then [] else [CHANNEL_INTERFERING]
  }

  // The update the receiver learns.
  function Announced(a: Advert, ip: Ip4, interval: u16, rx: Receiver): Event {
    Learned(a.id, a.key.prefix, a.key.plen, a.seqno, a.metric, interval,
            if IsV4(a.key) then V4Addr(ip) else rx.from, NotedChannels(a, rx))
  }

  // What the receiver hears of one item.
  function Heard(item: Item, rx: Receiver): seq<Event> {
    match item
    case Update(a, ip, interval) => if IsV4(a.key) && !rx.ipv4 then [] else [Announced(a, ip, interval, rx)]
    case Wildcard(_) => [AllRetracted]
    case Other(_, _) => []
  }

  function HeardAll(items: seq<Item>, rx: Receiver): seq<Event> {
    if items == [] then [] else Heard(items[0], rx) + HeardAll(items[1..], rx)
  }

  // ---- single messages

  // A message of payload length len at the start of the packet is parsed and passed over.
  lemma ParseStep(dec: Decoder, tlv: Bytes, rest: Bytes, rx: Receiver)
    requires |tlv| >= 2 && tlv[0] != MESSAGE_PAD1 && |tlv| - 2 == tlv[1]
    ensures var (event, dec') := ParseMessage(dec, tlv + rest, tlv[1], rx);
            ParseBody(dec, tlv + rest, rx)
            == ((match event case Some(e) => [e] case None => []) + ParseBody(dec', rest, rx).0,
                ParseBody(dec', rest, rx).1)
  {
    var m := tlv + rest;
    assert m[0] == tlv[0] && ByteAt(m, 1) == tlv[1];
    assert m[tlv[1] + 2..] == rest;
  }

  lemma NhParsed(dec: Decoder, ip: Ip4, rest: Bytes, rx: Receiver)
    ensures ParseBody(dec, NhTlv(ip) + rest, rx) == ParseBody(dec.(v4Nh := Some(V4Addr(ip))), rest, rx)
  {
    var m := NhTlv(ip) + rest;
    assert V4Bytes(m, 4, ZERO_ADDR, 0, 4) == V4Addr(ip);
    assert ByteAt(m, 2) == 1;
    assert NetworkPrefix(1, -1, 0, m, 4, ZERO_ADDR, 4) == Some((V4Addr(ip), 4));
    ParseStep(dec, NhTlv(ip), rest, rx);
    assert [] + ParseBody(dec.(v4Nh := Some(V4Addr(ip))), rest, rx).0
        == ParseBody(dec.(v4Nh := Some(V4Addr(ip))), rest, rx).0;
  }

  lemma RouterIdParsed(dec: Decoder, id: RouterId8, rest: Bytes, rx: Receiver)
    ensures ParseBody(dec, RouterIdTlv(id) + rest, rx) == ParseBody(dec.(id := Some(id)), rest, rx)
  {
    var m := RouterIdTlv(id) + rest;
    assert BytesAt(m, 4, 8) == id;
    ParseStep(dec, RouterIdTlv(id), rest, rx);
    assert [] + ParseBody(dec.(id := Some(id)), rest, rx).0 == ParseBody(dec.(id := Some(id)), rest, rx).0;
  }

  // ---- the pieces of an update

  lemma MaskedZeros(key: Key)
    requires Masked(key) && key.plen <= 128
    ensures forall i :: (key.plen + 7) / 8 <= i < 16 ==> key.prefix[i] == 0
  {
    if key.plen < 128 {
      assert forall i :: 0 <= i < 16 ==> MaskPrefix(key.prefix, key.plen)[i] == key.prefix[i];
    }
  }

  // The message holds the bytes b from position p on.
  ghost predicate Holds(m: Bytes, p: nat, b: Bytes) {
    p + |b| <= |m| && m[p..p + |b|] == b
  }

  lemma HoldsAt(m: Bytes, p: nat, b: Bytes, k: nat)
    requires Holds(m, p, b) && k < |b|
    ensures ByteAt(m, p + k) == b[k]
  {
    assert m[p..p + |b|][k] == m[p + k];
  }

  lemma V6ByteIs(key: Key, omit: nat, m: Bytes, dp: Addr, i: nat)
    requires key.plen <= 128 && Masked(key) && !IsV4(key) && omit <= key.plen / 8 && i < 16
    requires forall j :: 0 <= j < omit ==> dp[j] == key.prefix[j]
    requires Holds(m, 12, PrefixBytes(key, omit))
    ensures V6Byte(m, 12, dp, omit, (key.plen + 7) / 8, i) == key.prefix[i]
  {
    MaskedZeros(key);
    if omit <= i < (key.plen + 7) / 8 {
      HoldsAt(m, 12, PrefixBytes(key, omit), i - omit);
    }
  }

  lemma V6BytesAre(key: Key, omit: nat, m: Bytes, dp: Addr)
    requires key.plen <= 128 && Masked(key) && !IsV4(key) && omit <= key.plen / 8
    requires forall i :: 0 <= i < omit ==> dp[i] == key.prefix[i]
    requires Holds(m, 12, PrefixBytes(key, omit))
    ensures V6Bytes(m, 12, dp, omit, (key.plen + 7) / 8) == key.prefix
  {
    var prefix := V6Bytes(m, 12, dp, omit, (key.plen + 7) / 8);
    forall i | 0 <= i < 16
      ensures prefix[i] == key.prefix[i]
    {
      V6ByteIs(key, omit, m, dp, i);
    }
  }

  lemma V6Decoded(plen: u8, omit: u8, prefix: Addr, m: Bytes, dp: Addr, len: nat)
    requires plen <= 128 && omit <= plen / 8 && len >= (plen + 7) / 8 - omit && MaskPrefix(prefix, plen) == prefix
    requires omit > 0 ==> !V4Mapped(dp)
    requires V6Bytes(m, 12, dp, omit, (plen + 7) / 8) == prefix
    ensures NetworkPrefix(2, plen, omit, m, 12, dp, len) == Some((prefix, (plen + 7) / 8 - omit))
  {
    V6Sizes(plen, omit);
  }

  lemma V6Sizes(plen: u8, omit: u8)
    requires plen <= 128 && omit <= plen / 8
    ensures omit <= (plen + 7) / 8 <= 16
  {
  }

  lemma V4ByteIs(key: Key, m: Bytes, dp: Addr, i: nat)
    requires key.plen <= 128 && Masked(key) && IsV4(key) && i < 16 && Holds(m, 12, PrefixBytes(key, 0))
    ensures V4Byte(m, 12, dp, 0, (RealPlen(key) + 7) / 8, i) == key.prefix[i]
  {
    MaskedZeros(key);
    if i < 12 {
      assert key.prefix[..12][i] == V4PREFIX[i];
    } else if i < 12 + (RealPlen(key) + 7) / 8 {
      HoldsAt(m, 12, PrefixBytes(key, 0), i - 12);
    }
  }

  lemma V4BytesAre(key: Key, m: Bytes, dp: Addr)
    requires key.plen <= 128 && Masked(key) && IsV4(key) && Holds(m, 12, PrefixBytes(key, 0))
    ensures V4Bytes(m, 12, dp, 0, (RealPlen(key) + 7) / 8) == key.prefix
  {
    var prefix := V4Bytes(m, 12, dp, 0, (RealPlen(key) + 7) / 8);
    forall i | 0 <= i < 16
      ensures prefix[i] == key.prefix[i]
    {
      V4ByteIs(key, m, dp, i);
    }
  }

  lemma V4PrefixParsed(key: Key, plen: u8, m: Bytes, dp: Addr, len: nat)
    requires key.plen <= 128 && Masked(key) && IsV4(key) && plen == RealPlen(key)
    requires len >= (plen + 7) / 8 && Holds(m, 12, PrefixBytes(key, 0))
    ensures NetworkPrefix(1, plen, 0, m, 12, dp, len) == Some((key.prefix, (plen + 7) / 8))
  {
    V4BytesAre(key, m, dp);
    assert plen + 96 == key.plen && plen <= 32;
    V4Decoded(plen, key.prefix, m, dp, len);
  }

  lemma V4Decoded(plen: u8, prefix: Addr, m: Bytes, dp: Addr, len: nat)
    requires plen <= 32 && len >= (plen + 7) / 8 && MaskPrefix(prefix, plen + 96) == prefix
    requires V4Bytes(m, 12, dp, 0, (plen + 7) / 8) == prefix
    ensures NetworkPrefix(1, plen, 0, m, 12, dp, len) == Some((prefix, (plen + 7) / 8))
  {
    V4Plen(plen);
  }

  lemma V4Plen(plen: u8)
    requires plen <= 32
    ensures (plen + 96) % 0x100 == plen + 96 && (plen + 7) / 8 <= 4
  {
  }

  lemma AttributesParsed(m: Bytes, a: nat, channels: Bytes, assumed: Bytes)
    requires |channels| <= DIVERSITY_HOPS && 0 !in channels && Holds(m, a, ChannelBytes(Some(channels)))
    ensures ParseAttributes(m, a, |channels| + 2, 0, assumed) == channels
  {
    var n, sent := |channels|, ChannelBytes(Some(channels));
    var found := BytesAt(m, a + 0 + 2, n);
    HoldsAt(m, a, sent, 0);
    HoldsAt(m, a, sent, 1);
    forall i | 0 <= i < n
      ensures found[i] == channels[i]
    {
      HoldsAt(m, a, sent, i + 2);
    }
    assert found == channels;
    assert ParseAttributes(m, a, n + 2, n + 2, channels) == channels;
  }

  lemma ShortPrefix(p: Addr, plen: u8)
    requires plen < 96
    ensures MaskPrefix(p, plen)[11] != 0xFF
  {
  }

  // An IPv6 prefix as the encoder keeps it never looks like a mapped IPv4 one.
  lemma NotV4Mapped(key: Key)
    requires key.plen <= 128 && Masked(key) && !IsV4(key)
    ensures !V4Mapped(key.prefix)
  {
    if key.plen < 96 {
      ShortPrefix(key.prefix, key.plen);
      assert key.prefix[..12][11] == key.prefix[11];
    }
  }

  lemma HeadFields(enc: Encoder, a: Advert, interval: u16, more: Bytes)
    requires AdvertOk(a)
    ensures var m := UpdateHead(enc, a, interval) + more;
            && m[0] == MESSAGE_UPDATE && m[1] == UpdateLength(enc, a)
            && ByteAt(m, 2) == (if IsV4(a.key) then 1 else 2) && ByteAt(m, 3) == Flags(enc, a)
            && ByteAt(m, 4) == RealPlen(a.key) && ByteAt(m, 5) == Omitted(enc, a.key)
            && U16At(m, 6) == interval && U16At(m, 8) == a.seqno && U16At(m, 10) == a.metric
  {
    var head := UpdateHead(enc, a, interval);
    var m := head + more;
    assert forall i :: 0 <= i < 12 ==> m[i] == head[i];
  }

  lemma PartsHeld(head: Bytes, body: Bytes, channels: Bytes, rest: Bytes)
    ensures head + body + channels + rest == head + (body + channels + rest)
    ensures Holds(head + body + channels + rest, |head|, body)
    ensures Holds(head + body + channels + rest, |head| + |body|, channels)
  {
    var m := head + body + channels + rest;
    assert m[|head|..|head| + |body|] == body;
    assert m[|head| + |body|..|head| + |body| + |channels|] == channels;
  }

  // Where the parts of an update message are.
  ghost predicate Encodes(m: Bytes, enc: Encoder, a: Advert, interval: u16)
    requires AdvertOk(a)
  {
    var body := PrefixBytes(a.key, Omitted(enc, a.key));
    && |m| >= 12 && m[0] == MESSAGE_UPDATE && m[1] == UpdateLength(enc, a)
    && ByteAt(m, 2) == (if IsV4(a.key) then 1 else 2) && ByteAt(m, 3) == Flags(enc, a)
    && ByteAt(m, 4) == RealPlen(a.key) && ByteAt(m, 5) == Omitted(enc, a.key)
    && U16At(m, 6) == interval && U16At(m, 8) == a.seqno && U16At(m, 10) == a.metric
    && Holds(m, 12, body) && Holds(m, 12 + |body|, ChannelBytes(a.channels))
  }

  lemma UpdateFields(enc: Encoder, a: Advert, interval: u16, rest: Bytes)
    requires AdvertOk(a)
    ensures Encodes(UpdateTlv(enc, a, interval) + rest, enc, a, interval)
  {
    var body, channels := PrefixBytes(a.key, Omitted(enc, a.key)), ChannelBytes(a.channels);
    HeadFields(enc, a, interval, body + channels + rest);
    PartsHeld(UpdateHead(enc, a, interval), body, channels, rest);
  }

  // ---- an update

  lemma FlagBits(enc: Encoder, a: Advert)
    ensures Bit(Flags(enc, a), 0x80) == KeepsPrefix(enc, a.key)
    ensures Bit(Flags(enc, a), 0x40) == (enc.id != Some(a.id) && IdInPrefix(a))
    ensures Flags(enc, a) != 1
  {
  }

  // The receiver's state after an update.
  function AfterHeard(enc: Encoder, dec: Decoder, a: Advert): Decoder {
    dec.(id := Some(a.id), v6Prefix := if KeepsPrefix(enc, a.key) then Some(a.key.prefix) else dec.v6Prefix)
  }

  // The sender omits nothing the receiver does not have.
  lemma OmittedKnown(enc: Encoder, dec: Decoder, key: Key)
    requires PrefixInStep(enc, dec) && key.plen <= 128
    ensures var omit := Omitted(enc, key);
            && omit <= key.plen / 8 && (IsV4(key) ==> omit == 0)
            && (omit > 0 ==> dec.v6Prefix.Some? && !V4Mapped(dec.v6Prefix.value)
                             && forall i :: 0 <= i < omit ==> dec.v6Prefix.value[i] == key.prefix[i])
  {
  }

  lemma V6UpdatePrefix(dec: Decoder, key: Key, omit: nat, m: Bytes, len: nat)
    requires key.plen <= 128 && MaskPrefix(key.prefix, key.plen) == key.prefix && omit <= key.plen / 8
    requires len >= 10 + (key.plen + 7) / 8 - omit && (omit > 0 ==> !V4Mapped(OrZero(dec.v6Prefix)))
    requires ByteAt(m, 2) == 2 && ByteAt(m, 3) != 1 && ByteAt(m, 4) == key.plen && ByteAt(m, 5) == omit
    requires omit > 0 ==> dec.v6Prefix.Some?
    requires V6Bytes(m, 12, OrZero(dec.v6Prefix), omit, (key.plen + 7) / 8) == key.prefix
    ensures UpdatePrefix(dec, m, len) == Some((key.prefix, (key.plen + 7) / 8 - omit))
  {
    V6Decoded(key.plen, omit, key.prefix, m, OrZero(dec.v6Prefix), len - 10);
  }

  // The prefix of an update is decoded to the one sent, whatever was left out of it.
  lemma PrefixParsed(enc: Encoder, dec: Decoder, key: Key, m: Bytes, len: nat)
    requires key.plen <= 128 && Masked(key) && PrefixInStep(enc, dec)
    requires len >= 10 + |PrefixBytes(key, Omitted(enc, key))| && Holds(m, 12, PrefixBytes(key, Omitted(enc, key)))
    requires ByteAt(m, 2) == (if IsV4(key) then 1 else 2) && ByteAt(m, 3) != 1
    requires ByteAt(m, 4) == RealPlen(key) && ByteAt(m, 5) == Omitted(enc, key)
    ensures UpdatePrefix(dec, m, len) == Some((key.prefix, |PrefixBytes(key, Omitted(enc, key))|))
  {
    var omit := Omitted(enc, key);
    OmittedKnown(enc, dec, key);
    if IsV4(key) {
      V4PrefixParsed(key, RealPlen(key), m, OrZero(dec.v4Prefix), len - 10);
    } else {
      V6BytesAre(key, omit, m, OrZero(dec.v6Prefix));
      V6UpdatePrefix(dec, key, omit, m, len);
    }
  }

  lemma ChannelsParsed(a: Advert, m: Bytes, taken: nat, len: nat, rx: Receiver)
    requires AdvertOk(a) && len == 10 + taken + |ChannelBytes(a.channels)|
    requires Holds(m, 12 + taken, ChannelBytes(a.channels))
    ensures UpdateChannels(m, taken, len, a.metric, rx) == NotedChannels(a, rx)
  {
    if !rx.faraway && a.channels.Some? {
      AttributesParsed(m, 12 + taken, a.channels.value, if a.metric < 256 then [] else [CHANNEL_INTERFERING]);
    }
  }

  lemma FlagsParsed(enc: Encoder, dec: Decoder, a: Advert)
    requires dec.id == Some(a.id) || (enc.id != Some(a.id) && IdInPrefix(a))
    ensures AfterFlags(dec, if IsV4(a.key) then 1 else 2, Flags(enc, a), a.key.prefix) == AfterHeard(enc, dec, a)
    ensures Flags(enc, a) != 1
  {
    FlagBits(enc, a);
  }

  // The event an update message gives rise to, once its prefix and flags have been taken in.
  function EventOf(m: Bytes, len: u8, rx: Receiver, prefix: Addr, taken: nat, dec: Decoder): Option<Event>
    requires dec.id.Some? && (ByteAt(m, 2) == 1 ==> dec.v4Nh.Some?)
  {
    if ByteAt(m, 2) == 1 && !rx.ipv4 then None
    else Some(Learned(dec.id.value, prefix, ByteAt(m, 4) + (if ByteAt(m, 2) == 1 then 96 else 0), U16At(m, 8),
                      U16At(m, 10), U16At(m, 6), if ByteAt(m, 2) == 1 then dec.v4Nh.value else rx.from,
                      UpdateChannels(m, taken, len, U16At(m, 10), rx)))
  }

  lemma ParseUpdateIs(dec: Decoder, m: Bytes, len: u8, rx: Receiver, prefix: Addr, taken: nat, dec': Decoder)
    requires len >= 10 && (ByteAt(m, 2) == 1 || ByteAt(m, 2) == 2)
    requires UpdatePrefix(dec, m, len) == Some((prefix, taken)) && dec'.id.Some?
    requires AfterFlags(dec, ByteAt(m, 2), ByteAt(m, 3), prefix) == dec'
    requires if ByteAt(m, 2) == 1 then dec'.v4Nh.Some? else dec'.v6Nh.None?
    ensures ParseUpdate(dec, m, len, rx) == (EventOf(m, len, rx, prefix, taken, dec'), dec')
  {
  }

  lemma EventAnnounced(enc: Encoder, dec: Decoder, a: Advert, ip: Ip4, interval: u16, m: Bytes, rx: Receiver)
    requires AdvertOk(a) && Encodes(m, enc, a, interval) && dec.id == Some(a.id)
    requires IsV4(a.key) ==> dec.v4Nh == Some(V4Addr(ip))
    ensures EventOf(m, UpdateLength(enc, a), rx, a.key.prefix, |PrefixBytes(a.key, Omitted(enc, a.key))|, dec)
         == if IsV4(a.key) && !rx.ipv4 then None else Some(Announced(a, ip, interval, rx))
  {
    var taken, len := |PrefixBytes(a.key, Omitted(enc, a.key))|, UpdateLength(enc, a);
    LengthParts(enc, a, taken);
    ChannelsParsed(a, m, taken, len, rx);
    FieldsAnnounced(dec, a, ip, interval, m, rx, taken, len);
  }

  lemma LengthParts(enc: Encoder, a: Advert, taken: nat)
    requires AdvertOk(a) && taken == |PrefixBytes(a.key, Omitted(enc, a.key))|
    ensures UpdateLength(enc, a) == 10 + taken + |ChannelBytes(a.channels)|
  {
  }

  lemma FieldsAnnounced(dec: Decoder, a: Advert, ip: Ip4, interval: u16, m: Bytes, rx: Receiver, taken: nat, len: u8)
    requires dec.id == Some(a.id) && (IsV4(a.key) ==> dec.v4Nh == Some(V4Addr(ip)))
    requires ByteAt(m, 2) == (if IsV4(a.key) then 1 else 2) && ByteAt(m, 4) == RealPlen(a.key)
    requires U16At(m, 6) == interval && U16At(m, 8) == a.seqno && U16At(m, 10) == a.metric
    requires UpdateChannels(m, taken, len, a.metric, rx) == NotedChannels(a, rx)
    ensures EventOf(m, len, rx, a.key.prefix, taken, dec)
         == if IsV4(a.key) && !rx.ipv4 then None else Some(Announced(a, ip, interval, rx))
  {
  }

  lemma EncodedParsed(enc: Encoder, dec: Decoder, a: Advert, ip: Ip4, interval: u16, m: Bytes, rx: Receiver)
    requires AdvertOk(a) && PrefixInStep(enc, dec) && Encodes(m, enc, a, interval)
    requires IsV4(a.key) ==> dec.v4Nh == Some(V4Addr(ip))
    requires dec.id == Some(a.id) || (enc.id != Some(a.id) && IdInPrefix(a))
    ensures ParseUpdate(dec, m, UpdateLength(enc, a), rx)
            == (if IsV4(a.key) && !rx.ipv4 then None else Some(Announced(a, ip, interval, rx)), AfterHeard(enc, dec, a))
  {
    FlagsParsed(enc, dec, a);
    PrefixParsed(enc, dec, a.key, m, UpdateLength(enc, a));
    EventAnnounced(enc, AfterHeard(enc, dec, a), a, ip, interval, m, rx);
    ParseUpdateIs(dec, m, UpdateLength(enc, a), rx, a.key.prefix, |PrefixBytes(a.key, Omitted(enc, a.key))|,
                  AfterHeard(enc, dec, a));
  }

  lemma UpdateParsed(enc: Encoder, dec: Decoder, a: Advert, ip: Ip4, interval: u16, rest: Bytes, rx: Receiver)
    requires AdvertOk(a) && PrefixInStep(enc, dec)
    requires IsV4(a.key) ==> dec.v4Nh == Some(V4Addr(ip))
    requires dec.id == Some(a.id) || (enc.id != Some(a.id) && IdInPrefix(a))
    ensures ParseUpdate(dec, UpdateTlv(enc, a, interval) + rest, UpdateLength(enc, a), rx)
            == (if IsV4(a.key) && !rx.ipv4 then None else Some(Announced(a, ip, interval, rx)), AfterHeard(enc, dec, a))
  {
    UpdateFields(enc, a, interval, rest);
    EncodedParsed(enc, dec, a, ip, interval, UpdateTlv(enc, a, interval) + rest, rx);
  }

  lemma AfterHeardInStep(enc: Encoder, dec: Decoder, a: Advert, ip: Ip4, interval: u16)
    requires AdvertOk(a) && PrefixInStep(enc, dec)
    requires if IsV4(a.key) then dec.v4Nh == Some(V4Addr(ip))
             else enc.nh.Some? ==> dec.v4Nh == Some(V4Addr(enc.nh.value))
    ensures InStep(AfterItem(enc, Update(a, ip, interval)), AfterHeard(enc, dec, a))
  {
    if !IsV4(a.key) {
      NotV4Mapped(a.key);
    }
  }

  // ---- items and packets

  // m parses to these events and then goes on like rest in state dec'.
  ghost predicate ParsesTo(dec: Decoder, m: Bytes, events: seq<Event>, dec': Decoder, rest: Bytes, rx: Receiver) {
    ParseBody(dec, m, rx) == (events + ParseBody(dec', rest, rx).0, ParseBody(dec', rest, rx).1)
  }

  lemma UpdateMessage(dec: Decoder, tlv: Bytes, rest: Bytes, rx: Receiver, event: Option<Event>, dec': Decoder)
    requires |tlv| >= 2 && tlv[0] == MESSAGE_UPDATE && |tlv| - 2 == tlv[1]
    requires ParseUpdate(dec, tlv + rest, tlv[1], rx) == (event, dec')
    ensures ParsesTo(dec, tlv + rest, match event case Some(e) => [e] case None => [], dec', rest, rx)
  {
    ParseStep(dec, tlv, rest, rx);
    assert ByteAt(tlv + rest, 0) == MESSAGE_UPDATE;
  }

  lemma UpdateTlvHead(enc: Encoder, a: Advert, interval: u16)
    requires AdvertOk(a)
    ensures UpdateTlv(enc, a, interval)[0] == MESSAGE_UPDATE
    ensures UpdateTlv(enc, a, interval)[1] == UpdateLength(enc, a)
  {
    UpdateFields(enc, a, interval, []);
    assert UpdateTlv(enc, a, interval) + [] == UpdateTlv(enc, a, interval);
  }

  // The update message itself, the receiver knowing next hop and router-id.
  lemma UpdateMessageParsed(enc: Encoder, dec: Decoder, a: Advert, ip: Ip4, interval: u16, rest: Bytes, rx: Receiver)
    requires AdvertOk(a) && PrefixInStep(enc, dec)
    requires IsV4(a.key) ==> dec.v4Nh == Some(V4Addr(ip))
    requires dec.id == Some(a.id) || (enc.id != Some(a.id) && IdInPrefix(a))
    ensures ParsesTo(dec, UpdateTlv(enc, a, interval) + rest, Heard(Update(a, ip, interval), rx),
                     AfterHeard(enc, dec, a), rest, rx)
  {
    UpdateTlvHead(enc, a, interval);
    UpdateParsed(enc, dec, a, ip, interval, rest, rx);
    var event := if IsV4(a.key) && !rx.ipv4 then None else Some(Announced(a, ip, interval, rx));
    UpdateMessage(dec, UpdateTlv(enc, a, interval), rest, rx, event, AfterHeard(enc, dec, a));
  }

  // What the messages in front of an update tell the receiver.
  function Introduced(enc: Encoder, dec: Decoder, a: Advert, ip: Ip4): Decoder {
    var dec1 := if SendsNh(enc, a, ip) then dec.(v4Nh := Some(V4Addr(ip))) else dec;
    if SendsId(enc, a) then dec1.(id := Some(a.id)) else dec1
  }

  lemma NhIntroduced(sends: bool, dec: Decoder, ip: Ip4, rest: Bytes, rx: Receiver)
    ensures ParseBody(dec, (if sends then NhTlv(ip) else []) + rest, rx)
         == ParseBody(if sends then dec.(v4Nh := Some(V4Addr(ip))) else dec, rest, rx)
  {
    if sends {
      NhParsed(dec, ip, rest, rx);
    } else {
      assert [] + rest == rest;
    }
  }

  lemma IdIntroduced(sends: bool, dec: Decoder, id: RouterId8, rest: Bytes, rx: Receiver)
    ensures ParseBody(dec, (if sends then RouterIdTlv(id) else []) + rest, rx)
         == ParseBody(if sends then dec.(id := Some(id)) else dec, rest, rx)
  {
    if sends {
      RouterIdParsed(dec, id, rest, rx);
    } else {
      assert [] + rest == rest;
    }
  }

  lemma IntroductionParsed(enc: Encoder, dec: Decoder, a: Advert, ip: Ip4, rest: Bytes, rx: Receiver)
    ensures ParseBody(dec, Introduction(enc, a, ip) + rest, rx) == ParseBody(Introduced(enc, dec, a, ip), rest, rx)
  {
    var dec1 := if SendsNh(enc, a, ip) then dec.(v4Nh := Some(V4Addr(ip))) else dec;
    var nhs := if SendsNh(enc, a, ip) then NhTlv(ip) else [];
    var ids := if SendsId(enc, a) then RouterIdTlv(a.id) else [];
    Associative(nhs, ids, rest);
    NhIntroduced(SendsNh(enc, a, ip), dec, ip, ids + rest, rx);
    IdIntroduced(SendsId(enc, a), dec1, a.id, rest, rx);
  }

  // An update with the next hop and router-id messages it needs in front.
  lemma UpdateItemParsed(enc: Encoder, dec: Decoder, a: Advert, ip: Ip4, interval: u16, rest: Bytes, rx: Receiver)
    requires AdvertOk(a) && InStep(enc, dec)
    ensures var item, dec' := Update(a, ip, interval), AfterHeard(enc, Introduced(enc, dec, a, ip), a);
            && InStep(AfterItem(enc, item), dec')
            && ParsesTo(dec, ItemBytes(enc, item) + rest, Heard(item, rx), dec', rest, rx)
  {
    var tlv := UpdateTlv(enc, a, interval);
    var dec1 := Introduced(enc, dec, a, ip);
    IntroductionParsed(enc, dec, a, ip, tlv + rest, rx);
    assert ItemBytes(enc, Update(a, ip, interval)) + rest == Introduction(enc, a, ip) + (tlv + rest);
    UpdateMessageParsed(enc, dec1, a, ip, interval, rest, rx);
    AfterHeardInStep(enc, dec1, a, ip, interval);
  }

  lemma WildcardParsed(enc: Encoder, dec: Decoder, seqno: u16, rest: Bytes, rx: Receiver)
    requires InStep(enc, dec)
    ensures var dec' := dec.(id := Some([0, 0, 0, 0, 0, 0, 0, 0]));
            && InStep(AfterItem(enc, Wildcard(seqno)), dec')
            && ParsesTo(dec, ItemBytes(enc, Wildcard(seqno)) + rest, [AllRetracted], dec', rest, rx)
  {
    var tlv := ItemBytes(enc, Wildcard(seqno));
    var m := tlv + rest;
    assert tlv == [MESSAGE_UPDATE, 10, 0, 0x40, 0, 0, 0xFF, 0xFF, seqno / 0x100, seqno % 0x100, 0xFF, 0xFF];
    assert ByteAt(m, 2) == 0 && ByteAt(m, 3) == 0x40 && ByteAt(m, 4) == 0 && ByteAt(m, 5) == 0;
    assert U16At(m, 10) == 0xFFFF;
    assert MaskPrefix(ZERO_ADDR, 0) == ZERO_ADDR;
    assert ZERO_ADDR[8..] == [0, 0, 0, 0, 0, 0, 0, 0];
    UpdateMessage(dec, tlv, rest, rx, Some(AllRetracted), dec.(id := Some([0, 0, 0, 0, 0, 0, 0, 0])));
  }

  lemma OtherParsed(enc: Encoder, dec: Decoder, kind: u8, payload: Bytes, rest: Bytes, rx: Receiver)
    requires ItemOk(Other(kind, payload))
    ensures ParsesTo(dec, ItemBytes(enc, Other(kind, payload)) + rest, [], dec, rest, rx)
  {
    var tlv := ItemBytes(enc, Other(kind, payload));
    ParseStep(dec, tlv, rest, rx);
    assert ByteAt(tlv + rest, 0) == kind;
  }

  lemma ItemParsed(enc: Encoder, dec: Decoder, item: Item, rest: Bytes, rx: Receiver) returns (dec': Decoder)
    requires ItemOk(item) && InStep(enc, dec)
    ensures InStep(AfterItem(enc, item), dec')
    ensures ParsesTo(dec, ItemBytes(enc, item) + rest, Heard(item, rx), dec', rest, rx)
  {
    match item
    case Update(a, ip, interval) =>
      UpdateItemParsed(enc, dec, a, ip, interval, rest, rx);
      dec' := AfterHeard(enc, Introduced(enc, dec, a, ip), a);
    case Wildcard(seqno) =>
      WildcardParsed(enc, dec, seqno, rest, rx);
      dec' := dec.(id := Some([0, 0, 0, 0, 0, 0, 0, 0]));
    case Other(kind, payload) =>
      OtherParsed(enc, dec, kind, payload, rest, rx);
      dec' := dec;
  }

  lemma {:induction false} BodyParsed(enc: Encoder, dec: Decoder, items: seq<Item>, rx: Receiver)
    requires ItemsOk(items) && InStep(enc, dec)
    ensures ParseBody(dec, Body(enc, items), rx).0 == HeardAll(items, rx)
    decreases |items|
  {
    if items == [] {
    } else {
      var rest := Body(AfterItem(enc, items[0]), items[1..]);
      var dec' := ItemParsed(enc, dec, items[0], rest, rx);
      BodyParsed(AfterItem(enc, items[0]), dec', items[1..], rx);
    }
  }

  lemma V4Masks(plen: u8, omitted: u8, m: Bytes, dp: Addr, len: nat)
    requires plen <= 32 && NetworkPrefix(1, plen, omitted, m, 12, dp, len).Some?
    ensures omitted <= 4
    ensures NetworkPrefix(1, plen, omitted, m, 12, dp, len).value.0
         == MaskPrefix(V4Bytes(m, 12, dp, omitted, (plen + 7) / 8), plen + 96)
  {
    V4Plen(plen);
  }

  lemma V4TooLong(plen: u8, omitted: u8, m: Bytes, dp: Addr, len: nat)
    requires plen > 32
    ensures NetworkPrefix(1, plen, omitted, m, 12, dp, len).None?
  {
    assert (plen + 7) / 8 > 4;
  }

  lemma V6Masks(plen: u8, omitted: u8, m: Bytes, dp: Addr, len: nat)
    requires NetworkPrefix(2, plen, omitted, m, 12, dp, len).Some?
    ensures plen <= 128 && omitted <= 16
    ensures NetworkPrefix(2, plen, omitted, m, 12, dp, len).value.0
         == MaskPrefix(V6Bytes(m, 12, dp, omitted, (plen + 7) / 8), plen)
  {
  }

  lemma LinkLocalMasks(plen: u8, omitted: u8, m: Bytes, dp: Addr, len: nat)
    requires NetworkPrefix(3, plen, omitted, m, 12, dp, len).Some?
    ensures plen <= 128
    ensures NetworkPrefix(3, plen, omitted, m, 12, dp, len).value.0
         == MaskPrefix(LinkLocalBytes(m, 12, (plen + 7) / 8), plen)
  {
  }

  lemma NoOtherPrefix(ae: u8, plen: u8, omitted: u8, m: Bytes, dp: Addr, len: nat)
    requires ae > 3
    ensures NetworkPrefix(ae, plen, omitted, m, 12, dp, len).None?
  {
  }

  // The prefix has no bits beyond its length.
  predicate Bounded(prefix: Addr, plen: int) {
    0 <= plen <= 128 && MaskPrefix(prefix, plen) == prefix
  }

  lemma PrefixMasked(ae: u8, plen: u8, omitted: u8, m: Bytes, dp: Addr, len: nat, p: Addr, taken: nat)
    requires 1 <= ae && NetworkPrefix(ae, plen, omitted, m, 12, dp, len) == Some((p, taken))
    ensures Bounded(p, plen + (if ae == 1 then 96 else 0))
  {
    if ae == 1 && plen > 32 {
      V4TooLong(plen, omitted, m, dp, len);
    } else if ae == 1 {
      V4Masks(plen, omitted, m, dp, len);
      MaskIdempotent(V4Bytes(m, 12, dp, omitted, (plen + 7) / 8), plen + 96);
    } else if ae == 2 {
      V6Masks(plen, omitted, m, dp, len);
      MaskIdempotent(V6Bytes(m, 12, dp, omitted, (plen + 7) / 8), plen);
    } else if ae == 3 {
      LinkLocalMasks(plen, omitted, m, dp, len);
      MaskIdempotent(LinkLocalBytes(m, 12, (plen + 7) / 8), plen);
    } else {
      NoOtherPrefix(ae, plen, omitted, m, dp, len);
    }
  }

  // Whatever bytes arrive, a prefix learned from them is at most 128 bits long and has no bits beyond its length.
  predicate Proper(e: Event) {
    e.Learned? ==> Bounded(e.prefix, e.plen)
  }

  // What an update with a prefix tells, if anything, is about that prefix.
  lemma UpdateTells(dec: Decoder, m: Bytes, len: u8, rx: Receiver, p: Addr, taken: nat)
    requires len >= 10 && ByteAt(m, 2) >= 1 && UpdatePrefix(dec, m, len) == Some((p, taken))
    requires Bounded(p, ByteAt(m, 4) + (if ByteAt(m, 2) == 1 then 96 else 0))
    ensures var event := ParseUpdate(dec, m, len, rx).0; event.Some? ==> Proper(event.value)
  {
  }

  lemma NothingTold(dec: Decoder, m: Bytes, len: u8, rx: Receiver)
    requires len < 10 || ByteAt(m, 2) == 0 || UpdatePrefix(dec, m, len).None?
    ensures var event := ParseUpdate(dec, m, len, rx).0; event.Some? ==> Proper(event.value)
  {
  }

  lemma UpdateProper(dec: Decoder, m: Bytes, len: u8, rx: Receiver)
    ensures var event := ParseUpdate(dec, m, len, rx).0; event.Some? ==> Proper(event.value)
  {
    var ae := ByteAt(m, 2);
    if len < 10 || ae == 0 || UpdatePrefix(dec, m, len).None? {
      NothingTold(dec, m, len, rx);
    } else {
      var (p, taken) := UpdatePrefix(dec, m, len).value;
      UpdatePrefixMasked(dec, m, len, p, taken);
      UpdateTells(dec, m, len, rx, p, taken);
    }
  }

  lemma UpdatePrefixMasked(dec: Decoder, m: Bytes, len: u8, p: Addr, taken: nat)
    requires len >= 10 && ByteAt(m, 2) >= 1 && UpdatePrefix(dec, m, len) == Some((p, taken))
    ensures Bounded(p, ByteAt(m, 4) + (if ByteAt(m, 2) == 1 then 96 else 0))
  {
    var ae := ByteAt(m, 2);
    var dp := OrZero(if ae == 1 then dec.v4Prefix else dec.v6Prefix);
    PrefixMasked(ae, ByteAt(m, 4), ByteAt(m, 5), m, dp, len - 10, p, taken);
  }

  lemma MessageProper(dec: Decoder, m: Bytes, len: u8, rx: Receiver)
    ensures var event := ParseMessage(dec, m, len, rx).0; event.Some? ==> Proper(event.value)
  {
    UpdateProper(dec, m, len, rx);
  }

  lemma {:induction false} EventsProper(dec: Decoder, m: Bytes, rx: Receiver)
    ensures forall e :: e in ParseBody(dec, m, rx).0 ==> Proper(e)
    decreases |m|
  {
    if m == [] {
    } else if m[0] == MESSAGE_PAD1 {
      EventsProper(dec, m[1..], rx);
    } else {
      var len := ByteAt(m, 1);
      if len <= |m| {
        MessageProper(dec, m, len, rx);
        EventsProper(ParseMessage(dec, m, len, rx).1, if len + 2 <= |m| then m[len + 2..] else [], rx);
      }
    }
  }

  // Compression round trip: whatever was put into a packet, the receiver hears exactly that, in order.
  lemma PacketRoundTrip(items: seq<Item>, rx: Receiver)
    requires ItemsOk(items)
    ensures ParseBody(FRESH, Body(BLANK, items), rx).0 == HeardAll(items, rx)
  {
    BodyParsed(BLANK, FRESH, items, rx);
  }

  lemma {:induction false} HeardAllConcat(items: seq<Item>, more: seq<Item>, rx: Receiver)
    ensures HeardAll(items + more, rx) == HeardAll(items, rx) + HeardAll(more, rx)
  {
    if items == [] {
      assert items + more == more;
    } else {
      assert (items + more)[1..] == items[1..] + more;
      HeardAllConcat(items[1..], more, rx);
    }
  }
}
