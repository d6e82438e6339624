// The send buffer of a Babel interface, filled byte by byte and flushed when full
// (qsrx/babeld/message.c:510-660, 812-908, 1178-1205).
module SendBuffer {
  import opened Util
  import opened Prefix
  import opened Wire
  import opened WireProofs

  const BUCKET_TOKENS_MAX := 200
  const BUCKET_TOKENS_PER_SEC := 40

  // A flushed packet body, and whether the token bucket let it out.
  datatype Packet = Packet(body: Bytes, transmitted: bool)

  function Flatten(groups: seq<seq<Item>>): seq<Item> {
    if groups == [] then [] else groups[0] + Flatten(groups[1..])
  }

  lemma {:induction false} FlattenAppend(groups: seq<seq<Item>>, last: seq<Item>)
    ensures Flatten(groups + [last]) == Flatten(groups) + last
  {
    if groups == [] {
      assert groups + [last] == [last] && [last][1..] == [];
    } else {
      assert (groups + [last])[1..] == groups[1..] + [last];
      FlattenAppend(groups[1..], last);
    }
  }

  // A packet body is cut exactly into messages.
  predicate Tiled(m: Bytes)
    decreases |m|
  {
    m == [] || (|m| >= 2 && m[0] != MESSAGE_PAD1 && m[1] + 2 <= |m| && Tiled(m[m[1] + 2..]))
  }

  lemma TileStep(tlv: Bytes, rest: Bytes)
    requires |tlv| >= 2 && tlv[0] != MESSAGE_PAD1 && |tlv| - 2 == tlv[1] && Tiled(rest)
    ensures Tiled(tlv + rest)
  {
    assert (tlv + rest)[tlv[1] + 2..] == rest;
  }

  lemma IntroductionTiled(enc: Encoder, a: Advert, ip: Ip4, rest: Bytes)
    requires Tiled(rest)
    ensures Tiled(Introduction(enc, a, ip) + rest)
  {
    var ids := if SendsId(enc, a) then RouterIdTlv(a.id) else [];
    var nhs := if SendsNh(enc, a, ip) then NhTlv(ip) else [];
    assert nhs + ids + rest == nhs + (ids + rest);
    if SendsId(enc, a) {
      TileStep(ids, rest);
    } else {
      assert ids + rest == rest;
    }
    if SendsNh(enc, a, ip) {
      TileStep(nhs, ids + rest);
    } else {
      assert nhs + (ids + rest) == ids + rest;
    }
  }

  lemma UpdateTiled(enc: Encoder, a: Advert, ip: Ip4, interval: u16, rest: Bytes)
    requires AdvertOk(a) && Tiled(rest)
    ensures Tiled(Introduction(enc, a, ip) + (UpdateTlv(enc, a, interval) + rest))
  {
    UpdateTlvHead(enc, a, interval);
    TileStep(UpdateTlv(enc, a, interval), rest);
    IntroductionTiled(enc, a, ip, UpdateTlv(enc, a, interval) + rest);
  }

  lemma OtherTiled(kind: u8, payload: Bytes, rest: Bytes)
    requires kind != MESSAGE_PAD1 && |payload| < 0x100 && Tiled(rest)
    ensures Tiled([kind, |payload|] + payload + rest)
  {
    TileStep([kind, |payload|] + payload, rest);
  }

  lemma WildcardTiled(seqno: u16, rest: Bytes)
    requires Tiled(rest)
    ensures Tiled(WildcardTlv(seqno) + rest)
  {
    TileStep(WildcardTlv(seqno), rest);
  }

  lemma ItemTiled(enc: Encoder, item: Item, rest: Bytes)
    requires ItemOk(item) && Tiled(rest)
    ensures Tiled(ItemBytes(enc, item) + rest)
  {
    match item
    case Update(a, ip, interval) =>
      UpdateTiled(enc, a, ip, interval, rest);
      Associative(Introduction(enc, a, ip), UpdateTlv(enc, a, interval), rest);
    case Wildcard(seqno) => WildcardTiled(seqno, rest);
    case Other(kind, payload) => OtherTiled(kind, payload, rest);
  }

  lemma {:induction false} BodyTiled(enc: Encoder, items: seq<Item>)
    requires ItemsOk(items)
    ensures Tiled(Body(enc, items))
    decreases |items|
  {
    if items == [] {
    } else {
      BodyTiled(AfterItem(enc, items[0]), items[1..]);
      ItemTiled(enc, items[0], Body(AfterItem(enc, items[0]), items[1..]));
    }
  }

  // The packets the token bucket has let out.
  function Transmitted(packets: seq<Packet>): nat {
    if packets == [] then 0 else (if packets[0].transmitted then 1 else 0) + Transmitted(packets[1..])
  }

  lemma {:induction false} TransmittedAppend(packets: seq<Packet>, last: Packet)
    ensures Transmitted(packets + [last]) == Transmitted(packets) + if last.transmitted then 1 else 0
  {
    if packets == [] {
      assert packets + [last] == [last] && [last][1..] == [];
    } else {
      assert (packets + [last])[1..] == packets[1..] + [last];
      TransmittedAppend(packets[1..], last);
    }
  }

  // Packets let out, tokens left and tokens still to be earned never exceed what time has brought.
  predicate Metered(sent: nat, bucket: nat, bucketTime: int, clock: int, moved: nat) {
    sent + bucket + BUCKET_TOKENS_PER_SEC * Max(0, clock - bucketTime)
    <= BUCKET_TOKENS_MAX + BUCKET_TOKENS_PER_SEC * moved
  }

  lemma MeteredStep(sent: nat, bucket: nat, bucketTime: int, clock: int, moved: nat, now: int)
    requires Metered(sent, bucket, bucketTime, clock, moved)
    ensures var (permitted, bucket', bucketTime') := Ticked(bucket, bucketTime, now);
            Metered(sent + if permitted then 1 else 0, bucket', bucketTime', now, moved + Max(now - clock, 0))
  {
  }

  class SendBuffer {
    var sendbuf: array<u8>
    var buffered: nat
    // have_buffered_id, have_buffered_nh, have_buffered_prefix and their values
    var enc: Encoder
    // the interface's IPv4 address, if it has one, and its update interval as sent
    var ip: Option<Ip4>
    var interval: u16
    var up: bool
    var bucket: nat
    var bucketTime: int
    // what has been flushed so far
    var flushed: seq<Packet>

    // the items behind the bytes: those in the buffer, and those of every flushed packet
    ghost var items: seq<Item>
    ghost var done: seq<seq<Item>>
    // the clock when the bucket was last asked, and how far it has moved forward since the start
    ghost var clock: int
    ghost var moved: nat

    ghost predicate Valid()
      reads this, sendbuf
    {
      && sendbuf.Length >= 64 && buffered <= sendbuf.Length
      && ItemsOk(items) && Content() == Body(BLANK, items) && enc == AfterItems(BLANK, items)
      && Sent()
    }

    // What has been flushed so far.
    ghost predicate Sent()
      reads this
    {
      && |flushed| == |done|
      && (forall i :: 0 <= i < |done| ==> Carries(flushed[i].body, done[i], sendbuf.Length))
      && Metered(Transmitted(flushed), bucket, bucketTime, clock, moved)
    }

    // A packet body holds exactly these items and fits the buffer.
    static ghost predicate Carries(body: Bytes, items: seq<Item>, size: nat) {
      ItemsOk(items) && body == Body(BLANK, items) && |body| <= size
    }

    ghost function Content(): Bytes
      requires buffered <= sendbuf.Length
      reads this, sendbuf
    {
      sendbuf[..buffered]
    }

    // Everything accepted since the start, in order.
    ghost function History(): seq<Item>
      reads this
    {
      Flatten(done) + items
    }

    constructor (size: nat, ip: Option<Ip4>, interval: u16, now: int)
      requires size >= 64
      ensures Valid() && fresh(sendbuf) && History() == [] && flushed == []
      ensures bucket == BUCKET_TOKENS_MAX && bucketTime == now
      ensures this.ip == ip && this.interval == interval && up && sendbuf.Length == size
    {
      sendbuf, buffered, enc := new u8[size](_ => 0), 0, BLANK;
      this.ip, this.interval, up := ip, interval, true;
      bucket, bucketTime, clock, moved := BUCKET_TOKENS_MAX, now, now, 0;
      flushed, items, done := [], [], [];
    }

    // ---- flushing

    // check_bucket: at most this many packets per second in the long run.
    method CheckBucket(now: int) returns (permitted: bool)
      modifies `bucket, `bucketTime
      ensures (permitted, bucket, bucketTime) == Ticked(old(bucket), old(bucketTime), now)
    {
      if bucket <= 0 {
        var seconds := now - bucketTime;
        if seconds > 0 {
          bucket := Min(BUCKET_TOKENS_MAX, seconds * BUCKET_TOKENS_PER_SEC);
        }
        bucketTime := now;
      }
      if bucket > 0 {
        bucket := bucket - 1;
        permitted := true;
      } else {
        permitted := false;
      }
    }

    // The packet goes out if the bucket permits and is dropped otherwise.
    method Transmit(now: int)
      requires buffered <= sendbuf.Length && Metered(Transmitted(flushed), bucket, bucketTime, clock, moved)
      modifies `bucket, `bucketTime, `flushed, `clock, `moved
      ensures Metered(Transmitted(flushed), bucket, bucketTime, clock, moved)
      ensures flushed == old(flushed) + [Packet(Content(), Ticked(old(bucket), old(bucketTime), now).0)]
    {
      MeteredStep(Transmitted(flushed), bucket, bucketTime, clock, moved, now);
      TransmittedAppend(flushed, Packet(sendbuf[..buffered], Ticked(bucket, bucketTime, now).0));
      var permitted := CheckBucket(now);
      clock, moved := now, moved + Max(now - clock, 0);
      flushed := flushed + [Packet(sendbuf[..buffered], permitted)];
    }

    method FlushBuf(now: int)
      requires Valid()
      modifies this
      ensures Valid() && buffered == 0 && items == [] && History() == old(History())
      ensures sendbuf == old(sendbuf) && sendbuf[..] == old(sendbuf[..])
      ensures ip == old(ip) && interval == old(interval) && up == old(up)
      ensures done == if old(buffered) > 0 then old(done) + [old(items)] else old(done)
      ensures old(flushed) <= flushed
    {
      if buffered > 0 {
        Transmit(now);
        FlattenAppend(done, items);
        done := done + [items];
      } else {
        EmptyBody(BLANK, items);
      }
      buffered := 0;
      enc := BLANK;
      items := [];
      assert Content() == [];
    }

    static lemma EmptyBody(enc: Encoder, items: seq<Item>)
      requires ItemsOk(items) && Body(enc, items) == []
      ensures items == []
    {
      if items != [] {
        ItemNotEmpty(enc, items[0]);
      }
    }

    static lemma ItemNotEmpty(enc: Encoder, item: Item)
      requires ItemOk(item)
      ensures |ItemBytes(enc, item)| >= 2
    {
    }

    method EnsureSpace(space: nat, now: int)
      requires Valid() && space <= sendbuf.Length
      modifies this
      ensures Valid() && History() == old(History()) && sendbuf.Length - buffered >= space
      ensures sendbuf == old(sendbuf) && ip == old(ip) && interval == old(interval) && up == old(up)
      ensures old(flushed) <= flushed
    {
      if sendbuf.Length - buffered < space {
        FlushBuf(now);
      }
    }

    // ---- filling

    method AccumulateByte(value: u8)
      requires buffered < sendbuf.Length
      modifies `buffered, sendbuf
      ensures buffered <= sendbuf.Length && Content() == old(Content()) + [value]
    {
      sendbuf[buffered] := value;
      buffered := buffered + 1;
      assert Content() == old(Content()) + [value];
    }

    method AccumulateShort(value: u16)
      requires buffered + 2 <= sendbuf.Length
      modifies `buffered, sendbuf
      ensures buffered <= sendbuf.Length && Content() == old(Content()) + U16(value)
    {
      AccumulateByte(value / 0x100);
      AccumulateByte(value % 0x100);
    }

    method AccumulateBytes(value: Bytes)
      requires buffered + |value| <= sendbuf.Length
      modifies `buffered, sendbuf
      ensures buffered <= sendbuf.Length && Content() == old(Content()) + value
    {
      var i := 0;
      while i < |value|
        invariant 0 <= i <= |value| && buffered == old(buffered) + i
        invariant Content() == old(Content()) + value[..i]
      {
        assert value[..i + 1] == value[..i] + [value[i]];
        AccumulateByte(value[i]);
        i := i + 1;
      }
      assert value[..i] == value;
    }

    // Only bytes were added to the buffer.
    twostate predicate OnlyBytes()
      reads this
    {
      && sendbuf == old(sendbuf) && items == old(items) && done == old(done) && flushed == old(flushed)
      && bucket == old(bucket) && bucketTime == old(bucketTime) && clock == old(clock) && moved == old(moved)
      && ip == old(ip) && interval == old(interval) && up == old(up)
    }

    // start_message; flushes first when the message does not fit.
    method StartMessage(kind: u8, len: u8, now: int)
      requires buffered <= sendbuf.Length && len + 2 <= sendbuf.Length
      requires buffered + len + 2 > sendbuf.Length ==> Valid()
      modifies this, sendbuf
      ensures sendbuf == old(sendbuf) && ip == old(ip) && interval == old(interval) && up == old(up)
      ensures buffered + len <= sendbuf.Length
      ensures old(buffered) + len + 2 <= sendbuf.Length
              ==> OnlyBytes() && enc == old(enc) && Content() == old(Content()) + [kind, len]
      ensures old(buffered) + len + 2 > sendbuf.Length
              ==> && items == [] && enc == BLANK && Content() == [kind, len] && History() == old(History())
                  && old(flushed) <= flushed && Sent()
    {
      if sendbuf.Length - buffered < len + 2 {
        FlushBuf(now);
      }
      AccumulateByte(kind);
      AccumulateByte(len);
      assert Content() == (if old(buffered) + len + 2 <= sendbuf.Length then old(Content()) else []) + [kind, len];
    }

    // The same at the end of the items in the buffer.
    method StartItem(kind: u8, len: u8, now: int)
      requires Valid() && len + 2 <= sendbuf.Length
      modifies this, sendbuf
      ensures sendbuf == old(sendbuf) && ip == old(ip) && interval == old(interval) && up == old(up)
      ensures buffered + len <= sendbuf.Length && Sent() && old(flushed) <= flushed
      ensures ItemsOk(items) && enc == AfterItems(BLANK, items) && History() == old(History())
      ensures Content() == Body(BLANK, items) + [kind, len]
    {
      StartMessage(kind, len, now);
    }

    // ---- messages

    // The item whose bytes have just been written joins those in the buffer.
    ghost method Accept(before: Bytes, item: Item, tlv: Bytes)
      requires sendbuf.Length >= 64 && buffered <= sendbuf.Length && Sent()
      requires ItemsOk(items) && ItemOk(item) && before == Body(BLANK, items)
      requires tlv == ItemBytes(AfterItems(BLANK, items), item) && Content() == before + tlv
      requires enc == AfterItem(AfterItems(BLANK, items), item)
      modifies `items
      ensures Valid() && History() == old(History()) + [item]
    {
      BodyAppend(BLANK, items, item);
      items := items + [item];
      assert Flatten(done) + items == old(History()) + [item];
    }

    // end_message: its assertion.
    method EndMessage(kind: u8, bytes: u8)
      requires buffered <= sendbuf.Length
      requires buffered >= bytes + 2
      requires sendbuf[buffered - bytes - 2] == kind && sendbuf[buffered - bytes - 1] == bytes
    {
      assert buffered >= bytes + 2 && sendbuf[buffered - bytes - 2] == kind && sendbuf[buffered - bytes - 1] == bytes;
    }

    // Where the type and length of the last message are.
    lemma AtEnd(before: Bytes, kind: u8, bytes: u8, payload: Bytes)
      requires buffered <= sendbuf.Length && |payload| == bytes && Content() == before + [kind, bytes] + payload
      ensures buffered >= bytes + 2
      ensures sendbuf[buffered - bytes - 2] == kind && sendbuf[buffered - bytes - 1] == bytes
    {
      var all := before + [kind, bytes] + payload;
      assert all[|before|] == kind && all[|before| + 1] == bytes;
    }

    // The last bytes of a message, of which head is already written.
    method Finish(ghost before: Bytes, kind: u8, bytes: u8, ghost head: Bytes, payload: Bytes)
      requires |head| + |payload| == bytes && buffered + |payload| <= sendbuf.Length
      requires Content() == before + [kind, bytes] + head
      modifies `buffered, sendbuf
      ensures buffered <= sendbuf.Length && Content() == before + ([kind, bytes] + head + payload)
    {
      AccumulateBytes(payload);
      assert Content() == before + [kind, bytes] + (head + payload);
      AtEnd(before, kind, bytes, head + payload);
      EndMessage(kind, bytes);
      assert Content() == before + ([kind, bytes] + head + payload);
    }

    method FinishOther(ghost before: Bytes, kind: u8, payload: Bytes)
      requires |payload| < 0x100 && buffered + |payload| <= sendbuf.Length
      requires Content() == before + [kind, |payload|]
      modifies `buffered, sendbuf
      ensures buffered <= sendbuf.Length && Content() == before + ([kind, |payload|] + payload)
    {
      assert before + [kind, |payload|] + [] == before + [kind, |payload|];
      Finish(before, kind, |payload|, [], payload);
      assert [kind, |payload|] + [] + payload == [kind, |payload|] + payload;
    }

    // A message the receiver's update parser passes over: hello, IHU, request, ...
    method SendOther(kind: u8, payload: Bytes, now: int)
      requires Valid() && ItemOk(Other(kind, payload)) && |payload| + 2 <= sendbuf.Length
      modifies this, sendbuf
      ensures Valid() && sendbuf == old(sendbuf) && old(flushed) <= flushed
      ensures ip == old(ip) && interval == old(interval) && up == old(up)
      ensures History() == old(History()) + if old(up) then [Other(kind, payload)] else []
    {
      if !up {
        return;
      }
      StartItem(kind, |payload|, now);
      EndOther(kind, payload);
    }

    // The rest of such a message, which then is one of the items.
    method EndOther(kind: u8, payload: Bytes)
      requires sendbuf.Length >= 64 && buffered + |payload| <= sendbuf.Length && ItemOk(Other(kind, payload)) && Sent()
      requires ItemsOk(items) && enc == AfterItems(BLANK, items)
      requires Content() == Body(BLANK, items) + [kind, |payload|]
      modifies `buffered, sendbuf, `items
      ensures Valid() && History() == old(History()) + [Other(kind, payload)]
    {
      ghost var before := Body(BLANK, items);
      FinishOther(before, kind, payload);
      Accept(before, Other(kind, payload), [kind, |payload|] + payload);
    }

    // The fixed fields every update message starts with.
    method AccumulateBytes4(b0: u8, b1: u8, b2: u8, b3: u8)
      requires buffered + 4 <= sendbuf.Length
      modifies `buffered, sendbuf
      ensures buffered <= sendbuf.Length && Content() == old(Content()) + [b0, b1, b2, b3]
    {
      AccumulateByte(b0);
      AccumulateByte(b1);
      AccumulateByte(b2);
      AccumulateByte(b3);
    }

    method AccumulateShorts3(s0: u16, s1: u16, s2: u16)
      requires buffered + 6 <= sendbuf.Length
      modifies `buffered, sendbuf
      ensures buffered <= sendbuf.Length && Content() == old(Content()) + (U16(s0) + U16(s1) + U16(s2))
    {
      AccumulateShort(s0);
      AccumulateShort(s1);
      AccumulateShort(s2);
    }

    // The rest of a wildcard retraction.
    method FinishWildcard(ghost before: Bytes, seqno: u16)
      requires buffered + 10 <= sendbuf.Length && Content() == before + [MESSAGE_UPDATE, 10]
      modifies `buffered, sendbuf
      ensures buffered <= sendbuf.Length && Content() == before + WildcardTlv(seqno)
    {
      AccumulateBytes4(0, 0x40, 0, 0);
      AccumulateShorts3(0xFFFF, seqno, 0xFFFF);
      ghost var payload := [0, 0x40, 0, 0] + (U16(0xFFFF) + U16(seqno) + U16(0xFFFF));
      assert WildcardTlv(seqno) == [MESSAGE_UPDATE, 10] + payload;
      assert Content() == before + [MESSAGE_UPDATE, 10] + payload;
      AtEnd(before, MESSAGE_UPDATE, 10, payload);
      EndMessage(MESSAGE_UPDATE, 10);
    }

    method SendWildcardRetraction(seqno: u16, now: int)
      requires Valid()
      modifies this, sendbuf
      ensures Valid() && sendbuf == old(sendbuf) && old(flushed) <= flushed
      ensures ip == old(ip) && interval == old(interval) && up == old(up)
      ensures History() == old(History()) + if old(up) then [Wildcard(seqno)] else []
    {
      if !up {
        return;
      }
      StartItem(MESSAGE_UPDATE, 10, now);
      ghost var before := Body(BLANK, items);
      FinishWildcard(before, seqno);
      enc := enc.(id := None);
      Accept(before, Wildcard(seqno), WildcardTlv(seqno));
    }

    // ---- updates

    // The next hop, unless the packet has it.
    method SendNh(now: int)
      requires ip.Some? && buffered + 8 <= sendbuf.Length
      modifies this, sendbuf
      ensures OnlyBytes() && buffered <= sendbuf.Length && enc == old(enc).(nh := ip)
      ensures Content() == old(Content()) + if old(enc).nh != ip then NhTlv(ip.value) else []
    {
      if enc.nh != ip {
        ghost var before := Content();
        StartMessage(MESSAGE_NH, 6, now);
        AccumulateByte(1);
        AccumulateByte(0);
        assert Content() == before + [MESSAGE_NH, 6] + [1, 0];
        Finish(before, MESSAGE_NH, 6, [1, 0], ip.value);
        assert NhTlv(ip.value) == [MESSAGE_NH, 6] + [1, 0] + ip.value;
        enc := enc.(nh := ip);
      }
    }

    // The router-id, unless the packet has it or the prefix will tell it.
    method SendRouterId(id: RouterId8, inPrefix: bool, now: int)
      requires buffered + 12 <= sendbuf.Length
      modifies this, sendbuf
      ensures OnlyBytes() && buffered <= sendbuf.Length && enc == old(enc).(id := Some(id))
      ensures Content() == old(Content()) + if old(enc).id != Some(id) && !inPrefix then RouterIdTlv(id) else []
    {
      if enc.id != Some(id) {
        if !inPrefix {
          ghost var before := Content();
          StartMessage(MESSAGE_ROUTER_ID, 10, now);
          AccumulateShort(0);
          Finish(before, MESSAGE_ROUTER_ID, 10, U16(0), id);
          assert RouterIdTlv(id) == [MESSAGE_ROUTER_ID, 10] + U16(0) + id;
        }
        enc := enc.(id := Some(id));
      }
    }

    // How many leading bytes of the prefix the receiver can be spared.
    method CountOmitted(key: Key) returns (omit: nat)
      requires key.plen <= 128 && !IsV4(key)
      ensures omit == Omitted(enc, key)
    {
      omit := 0;
      if enc.prefix.Some? {
        while omit < key.plen / 8 && enc.prefix.value[omit] == key.prefix[omit]
          invariant omit <= key.plen / 8
          invariant OmitFrom(enc.prefix.value, key.prefix, key.plen / 8, 0)
                 == OmitFrom(enc.prefix.value, key.prefix, key.plen / 8, omit)
        {
          omit := omit + 1;
        }
      }
    }

    // The update message itself; was is the state before the messages that introduce it.
    method WriteUpdate(ghost was: Encoder, a: Advert, flags: u8, omit: u8, now: int)
      requires AdvertOk(a) && omit == Omitted(was, a.key) && flags == Flags(was, a)
      requires buffered + 38 <= sendbuf.Length
      modifies this, sendbuf
      ensures OnlyBytes() && buffered <= sendbuf.Length && enc == old(enc)
      ensures Content() == old(Content()) + UpdateTlv(was, a, interval)
    {
      var ae: u8 := if IsV4(a.key) then 1 else 2;
      var body, channels := PrefixBytes(a.key, omit), ChannelBytes(a.channels);
      var len: u8 := 10 + |body| + |channels|;
      WriteMessage(ae, flags, RealPlen(a.key), omit, a.seqno, a.metric, body, channels, len, now);
      UpdateTlvParts(was, a, interval, len, [ae, flags, RealPlen(a.key), omit]
                                            + (U16(interval) + U16(a.seqno) + U16(a.metric)));
    }

    method WriteMessage(ae: u8, flags: u8, plen: u8, omit: u8, seqno: u16, metric: u16, body: Bytes, channels: Bytes,
                        len: u8, now: int)
      requires len == 10 + |body| + |channels| && buffered + len + 2 <= sendbuf.Length
      modifies this, sendbuf
      ensures OnlyBytes() && buffered <= sendbuf.Length && enc == old(enc)
      ensures Content()
           == old(Content()) + ([MESSAGE_UPDATE, len]
                                + ([ae, flags, plen, omit] + (U16(interval) + U16(seqno) + U16(metric)) + body)
                                + channels)
    {
      ghost var before := Content();
      StartMessage(MESSAGE_UPDATE, len, now);
      WriteFields(ae, flags, plen, omit, seqno, metric);
      ghost var fields := [ae, flags, plen, omit] + (U16(interval) + U16(seqno) + U16(metric));
      AccumulateBytes(body);
      assert Content() == before + [MESSAGE_UPDATE, len] + (fields + body);
      Finish(before, MESSAGE_UPDATE, len, fields + body, channels);
    }

    static lemma HeadParts(was: Encoder, a: Advert, interval: u16, len: u8, fields: Bytes)
      requires AdvertOk(a) && len == UpdateLength(was, a)
      requires fields == [if IsV4(a.key) then 1 else 2, Flags(was, a), RealPlen(a.key), Omitted(was, a.key)]
                         + (U16(interval) + U16(a.seqno) + U16(a.metric))
      ensures UpdateHead(was, a, interval) == [MESSAGE_UPDATE, len] + fields
    {
      SixFirst(MESSAGE_UPDATE, len, if IsV4(a.key) then 1 else 2, Flags(was, a), RealPlen(a.key), Omitted(was, a.key),
               U16(interval), U16(a.seqno), U16(a.metric));
    }

    static lemma SixFirst(kind: u8, len: u8, b0: u8, b1: u8, b2: u8, b3: u8, x: Bytes, y: Bytes, z: Bytes)
      ensures [kind, len, b0, b1, b2, b3] + x + y + z == [kind, len] + ([b0, b1, b2, b3] + (x + y + z))
    {
      assert [kind, len, b0, b1, b2, b3] == [kind, len] + [b0, b1, b2, b3];
    }

    static lemma UpdateTlvParts(was: Encoder, a: Advert, interval: u16, len: u8, fields: Bytes)
      requires AdvertOk(a) && len == UpdateLength(was, a)
      requires fields == [if IsV4(a.key) then 1 else 2, Flags(was, a), RealPlen(a.key), Omitted(was, a.key)]
                         + (U16(interval) + U16(a.seqno) + U16(a.metric))
      ensures UpdateTlv(was, a, interval)
           == [MESSAGE_UPDATE, len] + (fields + PrefixBytes(a.key, Omitted(was, a.key))) + ChannelBytes(a.channels)
    {
      HeadParts(was, a, interval, len, fields);
      Associative([MESSAGE_UPDATE, len], fields, PrefixBytes(a.key, Omitted(was, a.key)));
    }

    method WriteFields(ae: u8, flags: u8, plen: u8, omit: u8, seqno: u16, metric: u16)
      requires buffered + 10 <= sendbuf.Length
      modifies `buffered, sendbuf
      ensures buffered <= sendbuf.Length
      ensures Content() == old(Content()) + ([ae, flags, plen, omit] + (U16(interval) + U16(seqno) + U16(metric)))
    {
      AccumulateBytes4(ae, flags, plen, omit);
      AccumulateShorts3(interval, seqno, metric);
    }

    // really_send_update. Its reservation covers the whole update, so that no flush can separate
    // what was left out of a message from the state that says so.
    method ReallySendUpdate(a0: Advert, addMetric: nat, now: int)
      requires Valid() && AdvertOk(a0)
      modifies this, sendbuf
      ensures Valid() && sendbuf == old(sendbuf) && old(flushed) <= flushed
      ensures ip == old(ip) && interval == old(interval) && up == old(up)
      ensures History() == old(History()) + Emitted(a0, addMetric, up, ip, interval)
    {
      if !up || addMetric >= INFINITY {
        return;
      }
      var a := Passed(a0, addMetric);
      // worst case
      EnsureSpace(20 + 12 + 28, now);
      if IsV4(a.key) && ip.None? {
        return;
      }
      ghost var was, before := enc, Content();
      WriteItem(a, now);
      Accept(before, Update(a, Own(ip), interval), ItemBytes(was, Update(a, Own(ip), interval)));
    }

    // The next hop of an IPv4 update; of an IPv6 one, what to omit of the prefix and whether to keep it.
    method IntroduceHop(a: Advert, now: int) returns (flags: u8, omit: u8)
      requires AdvertOk(a) && buffered + 20 <= sendbuf.Length && (IsV4(a.key) ==> ip.Some?)
      modifies this, sendbuf
      ensures OnlyBytes() && buffered <= old(buffered) + 8
      ensures flags == (if KeepsPrefix(old(enc), a.key) then 0x80 else 0) && omit == Omitted(old(enc), a.key)
      ensures enc == old(enc).(nh := if IsV4(a.key) then ip else old(enc).nh)
      ensures Content() == old(Content()) + if SendsNh(old(enc), a, Own(ip)) then NhTlv(Own(ip)) else []
    {
      flags, omit := 0, 0;
      if IsV4(a.key) {
        SendNh(now);
      } else {
        omit := CountOmitted(a.key);
        if enc.prefix.None? || a.key.plen >= 48 {
          flags := 0x80;
        }
      }
    }

    // The messages in front of an update; its flags and the bytes of the prefix it leaves out.
    method Introduce(a: Advert, now: int) returns (flags: u8, omit: u8)
      requires AdvertOk(a) && buffered + 20 <= sendbuf.Length && (IsV4(a.key) ==> ip.Some?)
      modifies this, sendbuf
      ensures OnlyBytes() && buffered <= sendbuf.Length
      ensures flags == Flags(old(enc), a) && omit == Omitted(old(enc), a.key)
      ensures enc == old(enc).(id := Some(a.id), nh := if IsV4(a.key) then ip else old(enc).nh)
      ensures Content() == old(Content()) + Introduction(old(enc), a, Own(ip))
    {
      ghost var was, before := enc, Content();
      flags, omit := IntroduceHop(a, now);
      var inPrefix := IdInPrefix(a);
      if enc.id != Some(a.id) && inPrefix {
        flags := flags + 0x40;
      }
      SendRouterId(a.id, inPrefix, now);
      IntroductionParts(before, was, a, Own(ip));
    }

    static lemma IntroductionParts(before: Bytes, was: Encoder, a: Advert, ip: Ip4)
      ensures before + (if SendsNh(was, a, ip) then NhTlv(ip) else [])
                     + (if SendsId(was, a) then RouterIdTlv(a.id) else [])
           == before + Introduction(was, a, ip)
    {
    }

    // An update and what introduces it, given room for the worst case.
    method WriteItem(a: Advert, now: int)
      requires AdvertOk(a) && buffered + 60 <= sendbuf.Length && (IsV4(a.key) ==> ip.Some?)
      modifies this, sendbuf
      ensures OnlyBytes() && buffered <= sendbuf.Length
      ensures enc == AfterItem(old(enc), Update(a, Own(ip), interval))
      ensures Content() == old(Content()) + ItemBytes(old(enc), Update(a, Own(ip), interval))
    {
      ghost var was, before := enc, Content();
      var flags, omit := Introduce(a, now);
      WriteUpdate(was, a, flags, omit, now);
      Associative(before, Introduction(was, a, Own(ip)), UpdateTlv(was, a, interval));
      if flags >= 0x80 {
        enc := enc.(prefix := Some(a.key.prefix));
      }
    }
  }

  // What comes of a call of really_send_update: the filter's metric is added, and nothing is sent when
  // the interface is down, the filter refuses, or an IPv4 update has no address to name as next hop.
  function Emitted(a: Advert, addMetric: nat, up: bool, ip: Option<Ip4>, interval: u16): seq<Item> {
    if up && addMetric < INFINITY && (IsV4(a.key) ==> ip.Some?)
    then [Update(Passed(a, addMetric), Own(ip), interval)]
    else []
  }

  function Passed(a: Advert, addMetric: nat): Advert {
    a.(metric := Min(a.metric + addMetric, INFINITY))
  }

  // The interface's address as far as an update depends on it.
  function Own(ip: Option<Ip4>): Ip4 {
    match ip case Some(a) => a case None => [0, 0, 0, 0]
  }


  // ---- the token bucket

  // One call of check_bucket: whether it permits, the tokens left and the time noted.
  function Ticked(bucket: nat, bucketTime: int, now: int): (bool, nat, int) {
    if bucket > 0 then (true, bucket - 1, bucketTime)
    else if now > bucketTime then (true, Min(BUCKET_TOKENS_MAX, (now - bucketTime) * BUCKET_TOKENS_PER_SEC) - 1, now)
    else (false, 0, now)
  }

  // The packets permitted by calls at the given times.
  function Permitted(bucket: nat, bucketTime: int, times: seq<int>): nat
    decreases |times|
  {
    if times == [] then 0
    else
      var (permitted, bucket', bucketTime') := Ticked(bucket, bucketTime, times[0]);
      (if permitted then 1 else 0) + Permitted(bucket', bucketTime', times[1..])
  }

  // How far the clock moves forward from start through the given times; steps back do not count.
  function Forward(start: int, times: seq<int>): nat
    decreases |times|
  {
    if times == [] then 0 else Max(times[0] - start, 0) + Forward(times[0], times[1..])
  }

  // Against any clock; moved is at least how far it has come since the time noted.
  lemma {:induction false} PermittedFrom(bucket: nat, bucketTime: int, clock: int, moved: nat, times: seq<int>)
    requires clock - bucketTime <= moved
    ensures Permitted(bucket, bucketTime, times) <= bucket + BUCKET_TOKENS_PER_SEC * (moved + Forward(clock, times))
    decreases |times|
  {
    if times == [] {
    } else {
      var now := times[0];
      var (permitted, bucket', bucketTime') := Ticked(bucket, bucketTime, now);
      PermittedFrom(bucket', bucketTime', now, if bucket > 0 then moved + Max(now - clock, 0) else 0, times[1..]);
    }
  }

  // At most 200 packets, and 40 more for every second the clock moves forward.
  lemma PermittedBound(start: int, times: seq<int>)
    ensures Permitted(BUCKET_TOKENS_MAX, start, times)
            <= BUCKET_TOKENS_MAX + BUCKET_TOKENS_PER_SEC * Forward(start, times)
  {
    PermittedFrom(BUCKET_TOKENS_MAX, start, start, 0, times);
  }

  // The other half: a request is permitted exactly if tokens are left or the clock has moved past the time noted.
  lemma PermittedIff(bucket: nat, bucketTime: int, now: int)
    ensures Permitted(bucket, bucketTime, [now]) == 1 <==> bucket > 0 || now > bucketTime
  {
    var (permitted, bucket', bucketTime') := Ticked(bucket, bucketTime, now);
    assert [now][1..] == [] && Permitted(bucket', bucketTime', []) == 0;
  }

  // As many requests as there are tokens are permitted, whatever their times.
  lemma {:induction false} TokensUsable(bucket: nat, bucketTime: int, times: seq<int>)
    requires |times| <= bucket
    ensures Permitted(bucket, bucketTime, times) == |times|
    decreases |times|
  {
    if times == [] {
    } else {
      TokensUsable(bucket - 1, bucketTime, times[1..]);
    }
  }

  // A bucket found empty fills with the time that passes: after s seconds the next 40 * s requests are
  // permitted, 200 at most, whatever their times.
  lemma RefillUsable(bucketTime: int, now: int, s: nat, times: seq<int>)
    requires now <= bucketTime && s > 0
    requires times != [] && times[0] == now + s && |times| <= Min(BUCKET_TOKENS_MAX, BUCKET_TOKENS_PER_SEC * s)
    ensures Permitted(0, bucketTime, [now] + times) == |times|
  {
    assert ([now] + times)[1..] == times;
    TokensUsable(Min(BUCKET_TOKENS_MAX, BUCKET_TOKENS_PER_SEC * s) - 1, now + s, times[1..]);
  }

  // A clock that never steps back moves forward by exactly the time that passes.
  lemma {:induction false} ForwardMonotone(start: int, times: seq<int>)
    requires times != [] && start <= times[0] && forall i, j :: 0 <= i < j < |times| ==> times[i] <= times[j]
    ensures Forward(start, times) == times[|times| - 1] - start
    decreases |times|
  {
    if |times| > 1 {
      ForwardMonotone(times[0], times[1..]);
    } else {
      assert times[1..] == [];
    }
  }
}
