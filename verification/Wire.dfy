// The Babel update encoding (qsrx/babeld/message.c). The sender compresses each update against what
// it has put into the packet so far, the receiver keeps the same state while parsing
// (section 4.4.9 of RFC 6126).
module Wire {
  import opened Util
  import opened Prefix

  type RouterId8 = a: Bytes | |a| == 8 witness [0, 0, 0, 0, 0, 0, 0, 0]
  type Ip4 = a: Bytes | |a| == 4 witness [0, 0, 0, 0]

  const MESSAGE_PAD1: u8 := 0
  const MESSAGE_ROUTER_ID: u8 := 6
  const MESSAGE_NH: u8 := 7
  const MESSAGE_UPDATE: u8 := 8

  const DIVERSITY_HOPS := 8
  const CHANNEL_INTERFERING: u8 := 255

  // An update as handed to really_send_update; channels is absent unless channels are carried.
  datatype Advert = Advert(id: RouterId8, key: Key, seqno: u16, metric: u16, channels: Option<Bytes>)

  // What can be put into a packet: an update, sent from an interface with this IPv4 address and
  // update interval; the retraction of everything; any other message (hello, IHU, request, ...).
  datatype Item =
    | Update(advert: Advert, ip: Ip4, interval: u16)
    | Wildcard(seqno: u16)
    | Other(kind: u8, payload: Bytes)

  predicate AdvertOk(a: Advert) {
    a.key.plen <= 128 && Masked(a.key)
    && (a.channels.Some? ==> |a.channels.value| <= DIVERSITY_HOPS && 0 !in a.channels.value)
  }

  predicate ItemOk(item: Item) {
    match item
    case Update(a, _, _) => AdvertOk(a)
    case Wildcard(_) => true
    case Other(kind, payload) =>
      kind != MESSAGE_PAD1 && kind != MESSAGE_ROUTER_ID && kind != MESSAGE_NH && kind != MESSAGE_UPDATE
      && |payload| < 0x100
  }

  function U16(x: u16): Bytes {
    [x / 0x100, x % 0x100]
  }

  predicate IsV4(key: Key) {
    key.plen >= 96 && V4Mapped(key.prefix)
  }

  // ---- the encoder

  // have_buffered_id, have_buffered_nh, have_buffered_prefix and the values they guard.
  datatype Encoder = Encoder(id: Option<RouterId8>, nh: Option<Ip4>, prefix: Option<Addr>)

  const BLANK := Encoder(None, None, None)

  // Leading bytes shared with the last prefix sent, whole bytes of the prefix only.
  function OmitFrom(last: Addr, prefix: Addr, limit: nat, k: nat): (n: nat)
    requires k <= limit <= 16
    ensures k <= n <= limit
    ensures forall i :: k <= i < n ==> last[i] == prefix[i]
    decreases limit - k
  {
    if k < limit && last[k] == prefix[k] then OmitFrom(last, prefix, limit, k + 1) else k
  }

  function Omitted(enc: Encoder, key: Key): (n: nat)
    requires key.plen <= 128
    ensures n <= key.plen / 8 <= 16
  {
    if IsV4(key) || enc.prefix.None? then 0 else OmitFrom(enc.prefix.value, key.prefix, key.plen / 8, 0)
  }

  // As many bytes are left out as can be: the next one differs, or is not a whole one.
  lemma OmittedLongest(enc: Encoder, key: Key)
    requires key.plen <= 128 && !IsV4(key) && enc.prefix.Some?
    ensures var n := Omitted(enc, key);
            && (forall i :: 0 <= i < n ==> enc.prefix.value[i] == key.prefix[i])
            && (n == key.plen / 8 || enc.prefix.value[n] != key.prefix[n])
  {
    OmitLongest(enc.prefix.value, key.prefix, key.plen / 8, 0);
  }

  lemma {:induction false} OmitLongest(last: Addr, prefix: Addr, limit: nat, k: nat)
    requires k <= limit <= 16
    ensures var n := OmitFrom(last, prefix, limit, k); n == limit || last[n] != prefix[n]
    decreases limit - k
  {
    if k == limit || last[k] != prefix[k] {
    } else {
      OmitLongest(last, prefix, limit, k + 1);
    }
  }

  predicate KeepsPrefix(enc: Encoder, key: Key) {
    !IsV4(key) && (enc.prefix.None? || key.plen >= 48)
  }

  // The router-id can be read off the prefix itself.
  predicate IdInPrefix(a: Advert) {
    !IsV4(a.key) && a.key.plen == 128 && a.key.prefix[8..] == a.id
  }

  function NhTlv(ip: Ip4): Bytes {
    [MESSAGE_NH, 6, 1, 0] + ip
  }

  function RouterIdTlv(id: RouterId8): Bytes {
    [MESSAGE_ROUTER_ID, 10, 0, 0] + id
  }

  function RealPlen(key: Key): u8 {
    if IsV4(key) then key.plen - 96 else key.plen
  }

  // The bytes of the prefix itself that are sent.
  function PrefixBytes(key: Key, omit: nat): (b: Bytes)
    requires key.plen <= 128 && (IsV4(key) ==> omit == 0) && omit <= key.plen / 8
    ensures |b| == (RealPlen(key) + 7) / 8 - omit
  {
    if IsV4(key) then key.prefix[12..12 + (RealPlen(key) + 7) / 8]
    else key.prefix[omit..(key.plen + 7) / 8]
  }

  function ChannelBytes(channels: Option<Bytes>): (b: Bytes)
    requires channels.Some? ==> |channels.value| <= DIVERSITY_HOPS
    ensures |b| <= DIVERSITY_HOPS + 2
  {
    match channels
    case None => []
    case Some(c) => [2, |c|] + c
  }

  function Flags(enc: Encoder, a: Advert): u8 {
    (if KeepsPrefix(enc, a.key) then 0x80 else 0)
    + (if enc.id != Some(a.id) && IdInPrefix(a) then 0x40 else 0)
  }

  // Payload length of an update message.
  function UpdateLength(enc: Encoder, a: Advert): (n: u8)
    requires AdvertOk(a)
    ensures 10 <= n <= 36
  {
    10 + |PrefixBytes(a.key, Omitted(enc, a.key))| + |ChannelBytes(a.channels)|
  }

  function UpdateHead(enc: Encoder, a: Advert, interval: u16): (b: Bytes)
    requires AdvertOk(a)
    ensures |b| == 12
  {
    [MESSAGE_UPDATE, UpdateLength(enc, a), if IsV4(a.key) then 1 else 2, Flags(enc, a), RealPlen(a.key),
     Omitted(enc, a.key)]
    + U16(interval) + U16(a.seqno) + U16(a.metric)
  }

  function UpdateTlv(enc: Encoder, a: Advert, interval: u16): (b: Bytes)
    requires AdvertOk(a)
    ensures |b| == 2 + UpdateLength(enc, a)
  {
    UpdateHead(enc, a, interval) + PrefixBytes(a.key, Omitted(enc, a.key)) + ChannelBytes(a.channels)
  }

  predicate SendsNh(enc: Encoder, a: Advert, ip: Ip4) {
    IsV4(a.key) && enc.nh != Some(ip)
  }

  predicate SendsId(enc: Encoder, a: Advert) {
    enc.id != Some(a.id) && !IdInPrefix(a)
  }

  // The messages an update needs in front of it.
  function Introduction(enc: Encoder, a: Advert, ip: Ip4): (b: Bytes)
    ensures |b| <= 20
  {
    (if SendsNh(enc, a, ip) then NhTlv(ip) else []) + (if SendsId(enc, a) then RouterIdTlv(a.id) else [])
  }

  function WildcardTlv(seqno: u16): Bytes {
    [MESSAGE_UPDATE, 10, 0, 0x40, 0, 0, 0xFF, 0xFF] + U16(seqno) + U16(0xFFFF)
  }

  function ItemBytes(enc: Encoder, item: Item): Bytes
    requires ItemOk(item)
  {
    match item
    case Update(a, ip, interval) => Introduction(enc, a, ip) + UpdateTlv(enc, a, interval)
    case Wildcard(seqno) => WildcardTlv(seqno)
    case Other(kind, payload) => [kind, |payload|] + payload
  }

  function AfterItem(enc: Encoder, item: Item): Encoder {
    match item
    case Update(a, ip, _) =>
      Encoder(Some(a.id),
              if IsV4(a.key) then Some(ip) else enc.nh,
              if KeepsPrefix(enc, a.key) then Some(a.key.prefix) else enc.prefix)
    case Wildcard(_) => enc.(id := None)
    case Other(_, _) => enc
  }

  predicate ItemsOk(items: seq<Item>) {
    forall i :: 0 <= i < |items| ==> ItemOk(items[i])
  }

  // The body of a packet holding these items.
  function Body(enc: Encoder, items: seq<Item>): Bytes
    requires ItemsOk(items)
    decreases |items|
  {
    if items == [] then [] else ItemBytes(enc, items[0]) + Body(AfterItem(enc, items[0]), items[1..])
  }

  function AfterItems(enc: Encoder, items: seq<Item>): Encoder
    decreases |items|
  {
    if items == [] then enc else AfterItems(AfterItem(enc, items[0]), items[1..])
  }

  lemma {:induction false} BodyAppend(enc: Encoder, items: seq<Item>, item: Item)
    requires ItemsOk(items) && ItemOk(item)
    ensures Body(enc, items + [item]) == Body(enc, items) + ItemBytes(AfterItems(enc, items), item)
    ensures AfterItems(enc, items + [item]) == AfterItem(AfterItems(enc, items), item)
    decreases |items|
  {
    if items == [] {
      assert items + [item] == [item] && [item][1..] == [];
    } else {
      assert (items + [item])[1..] == items[1..] + [item];
      BodyAppend(AfterItem(enc, items[0]), items[1..], item);
    }
  }

  // ---- the decoder

  // The parser's state within a packet.
  datatype Decoder = Decoder(id: Option<RouterId8>, v4Prefix: Option<Addr>, v6Prefix: Option<Addr>,
                             v4Nh: Option<Addr>, v6Nh: Option<Addr>)

  const FRESH := Decoder(None, None, None, None, None)

  // The receiving interface and the address the packet came from.
  datatype Receiver = Receiver(from: Addr, ipv4: bool, faraway: bool)

  datatype Event =
    | Learned(id: RouterId8, prefix: Addr, plen: int, seqno: u16, metric: u16, interval: u16, nh: Addr, channels: Bytes)
    | AllRetracted

  // A byte of the message at hand; what lies beyond the packet reads as zero.
  function ByteAt(m: Bytes, i: nat): u8 {
    if i < |m| then m[i] else 0
  }

  function U16At(m: Bytes, i: nat): u16 {
    ByteAt(m, i) * 0x100 + ByteAt(m, i + 1)
  }

  function BytesAt(m: Bytes, i: nat, n: nat): (b: Bytes)
    ensures |b| == n
  {
    seq<u8>(n, k requires 0 <= k < n => ByteAt(m, i + k))
  }

  const ZERO_ADDR: Addr := [0, 0, 0, 0, 0, 0, 0, 0, 0, 0, 0, 0, 0, 0, 0, 0]

  // Byte i of a decoded prefix, for each way of encoding one.
  function V4Byte(m: Bytes, p: nat, dp: Addr, omitted: nat, pb: nat, i: nat): u8
    requires i < 16 && omitted <= 4
  {
    if i < 12 then V4PREFIX[i]
    else if i < 12 + omitted then dp[i]
    else if i < 12 + pb then ByteAt(m, p + i - 12 - omitted)
    else 0
  }

  function V6Byte(m: Bytes, p: nat, dp: Addr, omitted: nat, pb: nat, i: nat): u8
    requires i < 16 && omitted <= 16
  {
    if i < omitted then dp[i] else if i < pb then ByteAt(m, p + i - omitted) else 0
  }

  function LinkLocalByte(m: Bytes, p: nat, pb: nat, i: nat): u8 {
    if i == 0 then 0xFE else if i == 1 then 0x80 else if 8 <= i < pb then ByteAt(m, p + i - 8) else 0
  }

  function V4Bytes(m: Bytes, p: nat, dp: Addr, omitted: nat, pb: nat): Addr
    requires omitted <= 4
  {
    seq<u8>(16, i requires 0 <= i < 16 => V4Byte(m, p, dp, omitted, pb, i))
  }

  function V6Bytes(m: Bytes, p: nat, dp: Addr, omitted: nat, pb: nat): Addr
    requires omitted <= 16
  {
    seq<u8>(16, i requires 0 <= i < 16 => V6Byte(m, p, dp, omitted, pb, i))
  }

  function LinkLocalBytes(m: Bytes, p: nat, pb: nat): Addr {
    seq<u8>(16, i requires 0 <= i < 16 => LinkLocalByte(m, p, pb, i))
  }

  // network_prefix: the prefix and the number of bytes it took, or None where the C code returns a
  // negative number. p is the position of the encoded bytes in m, len how many there may be.
  function NetworkPrefix(ae: u8, plen: int, omitted: u8, m: Bytes, p: nat, dp: Addr, len: nat): (r: Option<(Addr, nat)>)
    requires plen < 0x100
    ensures r.Some? ==> r.value.1 <= 16
  {
    var pb := if plen >= 0 then (plen + 7) / 8 else if ae == 1 then 4 else 16;
    var masked: u8 := if plen < 0 then 128 else if ae == 1 then (plen + 96) % 0x100 else plen;
    if pb > 16 then None
    else if ae == 0 then Some((MaskPrefix(ZERO_ADDR, masked), 0))
    else if ae == 1 then
      if omitted > 4 || pb > 4 || (pb > omitted && len < pb - omitted) then None
      else if omitted > 0 && !V4Mapped(dp) then None
      else if pb < omitted then None
      else
        Some((MaskPrefix(V4Bytes(m, p, dp, omitted, pb), masked), pb - omitted))
    else if ae == 2 then
      if omitted > 16 || (pb > omitted && len < pb - omitted) then None
      else if omitted > 0 && V4Mapped(dp) then None
      else if pb < omitted then None
      else
        Some((MaskPrefix(V6Bytes(m, p, dp, omitted, pb), masked), pb - omitted))
    else if ae == 3 then
      if pb < 8 || len < pb - 8 then None
      else
        Some((MaskPrefix(LinkLocalBytes(m, p, pb), masked), pb - 8))
    else None
  }

  // parse_route_attributes from position i of alen bytes that start at position a.
  function ParseAttributes(m: Bytes, a: nat, alen: nat, i: nat, channels: Bytes): Bytes
    decreases alen - i
  {
    if i >= alen then channels
    else
      var kind := ByteAt(m, a + i);
      if kind == 0 then ParseAttributes(m, a, alen, i + 1, channels)
      else
        var len := ByteAt(m, a + i + 1);
        if i + len > alen then channels
        else if kind == 2 then
          var n := Min(len, DIVERSITY_HOPS);
          if 0 in BytesAt(m, a + i + 2, n) then channels
          else ParseAttributes(m, a, alen, i + n + 2, BytesAt(m, a + i + 2, n))
        else ParseAttributes(m, a, alen, i + len + 2, channels)
  }

  function Bit(flags: u8, weight: nat): bool
    requires weight > 0
  {
    flags / weight % 2 == 1
  }

  // The failure of an update message: its prefix state is dropped if it meant to change it.
  function UpdateFailed(dec: Decoder, drops: bool): (Option<Event>, Decoder) {
    (None, if drops then dec.(v4Prefix := None, v6Prefix := None) else dec)
  }

  function OrZero(prefix: Option<Addr>): Addr {
    match prefix case Some(p) => p case None => ZERO_ADDR
  }

  // The prefix of an update and the bytes it took; message[3] decides, as in the C code, which
  // earlier prefix an omission needs.
  function UpdatePrefix(dec: Decoder, m: Bytes, len: nat): (r: Option<(Addr, nat)>)
    requires len >= 10
    ensures r.Some? ==> r.value.1 <= 16
  {
    var ae, omitted := ByteAt(m, 2), ByteAt(m, 5);
    if omitted != 0 && (if ByteAt(m, 3) == 1 then dec.v4Prefix else dec.v6Prefix).None? then None
    else
      var dp := OrZero(if ae == 1 then dec.v4Prefix else dec.v6Prefix);
      NetworkPrefix(ae, ByteAt(m, 4), omitted, m, 12, dp, len - 10)
  }

  // What the flags of an update make of the parser's state.
  function AfterFlags(dec: Decoder, ae: u8, flags: u8, prefix: Addr): Decoder {
    var dec1 := if !Bit(flags, 0x80) then dec
                else if ae == 1 then dec.(v4Prefix := Some(prefix)) else dec.(v6Prefix := Some(prefix));
    if !Bit(flags, 0x40) then dec1
    else dec1.(id := Some(if ae == 1 then [0, 0, 0, 0] + prefix[12..] else prefix[8..]))
  }

  function UpdateChannels(m: Bytes, taken: nat, len: nat, metric: u16, rx: Receiver): Bytes {
    var assumed := if rx.faraway || metric < 256 then [] else [CHANNEL_INTERFERING];
    if !rx.faraway && 10 + taken < len then ParseAttributes(m, 12 + taken, len - (10 + taken), 0, assumed)
    else assumed
  }

  function ParseUpdate(dec: Decoder, m: Bytes, len: u8, rx: Receiver): (Option<Event>, Decoder) {
    var ae, flags := ByteAt(m, 2), ByteAt(m, 3);
    if len < 10 then UpdateFailed(dec, len < 2 || Bit(flags, 0x80))
    else
      var parsed := UpdatePrefix(dec, m, len);
      if parsed.None? then UpdateFailed(dec, Bit(flags, 0x80))
      else
        var (prefix, taken) := parsed.value;
        var metric := U16At(m, 10);
        var dec' := AfterFlags(dec, ae, flags, prefix);
        if dec'.id.None? && ae != 0 then (None, dec')
        else if ae == 0 then (if metric < 0xFFFF then None else Some(AllRetracted), dec')
        else if ae == 1 && (dec'.v4Nh.None? || !rx.ipv4) then (None, dec')
        else
          var nh := if ae == 1 then dec'.v4Nh.value
                    else match dec'.v6Nh case Some(n) => n case None => rx.from;
          (Some(Learned(dec'.id.value, prefix, ByteAt(m, 4) + (if ae == 1 then 96 else 0), U16At(m, 8), metric,
                        U16At(m, 6), nh, UpdateChannels(m, taken, len, metric, rx))), dec')
  }

  function ParseNh(dec: Decoder, m: Bytes, len: u8): Decoder {
    if len < 2 then dec.(v4Nh := None, v6Nh := None)
    else
      match NetworkPrefix(ByteAt(m, 2), -1, 0, m, 4, ZERO_ADDR, len - 2)
      case None => dec.(v4Nh := None, v6Nh := None)
      case Some(r) => if ByteAt(m, 2) == 1 then dec.(v4Nh := Some(r.0)) else dec.(v6Nh := Some(r.0))
  }

  // One message at the start of m, and what it does to the state. Messages that leave the parser's
  // state alone are not interpreted here.
  function ParseMessage(dec: Decoder, m: Bytes, len: u8, rx: Receiver): (Option<Event>, Decoder) {
    var kind := ByteAt(m, 0);
    if kind == MESSAGE_ROUTER_ID then
      (None, if len < 10 then dec.(id := None) else dec.(id := Some(BytesAt(m, 4, 8))))
    else if kind == MESSAGE_NH then (None, ParseNh(dec, m, len))
    else if kind == MESSAGE_UPDATE then ParseUpdate(dec, m, len, rx)
    else (None, dec)
  }

  // The loop of parse_packet over a packet body, m being what is left of it.
  function ParseBody(dec: Decoder, m: Bytes, rx: Receiver): (seq<Event>, Decoder)
    decreases |m|
  {
    if m == [] then ([], dec)
    else if m[0] == MESSAGE_PAD1 then ParseBody(dec, m[1..], rx)
    else
      var len := ByteAt(m, 1);
      if len > |m| then ([], dec)
      else
        var (event, dec') := ParseMessage(dec, m, len, rx);
        var (events, last) := ParseBody(dec', if len + 2 <= |m| then m[len + 2..] else [], rx);
        ((match event case Some(e) => [e] case None => []) + events, last)
  }
}
