// An interface with its queue of updates in front of the send buffer: whatever fills the buffer first
// flushes the queue (qsrx/babeld/message.c:532-572, 618-626, 944-1068, 1082-1119).
module Interface {
  import opened Util
  import opened Prefix
  import opened RouteTable
  import opened SendBuffer
  import opened UpdateFlush
  import Wire

  // The batches the queue was flushed in, end to end.
  function Concat(batches: seq<seq<Key>>): seq<Key> {
    if batches == [] then [] else batches[0] + Concat(batches[1..])
  }

  lemma {:induction false} ConcatAppend(batches: seq<seq<Key>>, last: seq<Key>)
    ensures Concat(batches + [last]) == Concat(batches) + last
  {
    if batches == [] {
      assert batches + [last] == [last] && [last][1..] == [];
    } else {
      assert (batches + [last])[1..] == batches[1..] + [last];
      ConcatAppend(batches[1..], last);
      Associative(batches[0], Concat(batches[1..]), last);
    }
  }

  // The items a batch of queued updates leaves as, the interface being up or not.
  ghost function BatchItems(board: Board, batch: seq<Key>, cfg: Sending, up: bool, ip: Option<Wire.Ip4>, interval: u16):
    seq<Wire.Item>
  {
    if up then AllItems(board, Flushed(board, batch, cfg), cfg, ip, interval) else []
  }

  class Interface {
    const out: SendBuffer
    // buffered_updates, in the order they were queued, and update_bufsize
    var queue: seq<Key>
    var room: nat

    // every update queued so far, and the batches flushed so far
    ghost var asked: seq<Key>
    ghost var batches: seq<seq<Key>>

    // The queue fits its room, and every update asked for is in one batch or still queued.
    ghost predicate Valid()
      reads this, out, out.sendbuf
    {
      && out.Valid() && out.sendbuf.Length < 0x1_0000
      && |queue| <= room && (forall k :: k in queue ==> KeyOk(k))
      && Concat(batches) + queue == asked
    }

    constructor (out: SendBuffer)
      requires out.Valid() && out.sendbuf.Length < 0x1_0000
      ensures Valid() && this.out == out && queue == [] && asked == [] && batches == []
    {
      this.out, queue, room := out, [], 0;
      asked, batches := [], [];
    }

    // The interface's settings are as before.
    twostate predicate SameSettings()
      reads this, out
    {
      out.sendbuf == old(out.sendbuf) && out.up == old(out.up) && out.ip == old(out.ip)
      && out.interval == old(out.interval)
    }

    // The items the queue would leave as.
    ghost function Queued(board: Board, cfg: Sending): seq<Wire.Item>
      reads this, out
    {
      BatchItems(board, queue, cfg, out.up, out.ip, out.interval)
    }

    // flushupdates: the whole queue goes to the send buffer, and the table records it.
    method FlushQueue(t: RouteTable, cfg: Sending, now: int)
      requires Valid() && t.Valid()
      modifies this, out, out.sendbuf, t`srcs
      ensures Valid() && t.Valid() && BoardOf(t) == old(BoardOf(t)) && SameSettings()
      ensures queue == [] && asked == old(asked) && (old(queue) != [] ==> room == 0)
      ensures batches == if old(queue) == [] then old(batches) else old(batches) + [old(queue)]
      ensures out.History() == old(out.History()) + old(Queued(BoardOf(t), cfg))
    {
      if |queue| == 0 {
        NothingQueued(BoardOf(t), cfg, out.up, out.ip, out.interval);
        assert out.History() + [] == out.History();
        return;
      }
      var batch := TakeQueue();
      FlushUpdates(t, out, batch, cfg, now);
    }

    // The queue becomes a batch and is empty.
    method TakeQueue() returns (batch: seq<Key>)
      requires Valid() && queue != []
      modifies `queue, `room, `batches
      ensures Valid() && queue == [] && room == 0
      ensures batch == old(queue) && batches == old(batches) + [batch]
    {
      batch := queue;
      queue, room := [], 0;
      ConcatAppend(batches, batch);
      batches := batches + [batch];
      assert Concat(batches) + [] == asked;
    }

    static lemma NothingQueued(board: Board, cfg: Sending, up: bool, ip: Option<Wire.Ip4>, interval: u16)
      ensures BatchItems(board, [], cfg, up, ip, interval) == []
    {
      assert Entries(board, [], cfg) == [];
    }

    // flushbuf: the queue goes first, then the buffer leaves. Whoever receives all packets has heard
    // what was accepted before and the queued updates, in order, and nothing else.
    method FlushBuf(t: RouteTable, cfg: Sending, now: int)
      requires Valid() && t.Valid()
      modifies this, out, out.sendbuf, t`srcs
      ensures Valid() && t.Valid() && BoardOf(t) == old(BoardOf(t)) && SameSettings()
      ensures queue == [] && asked == old(asked) && out.buffered == 0
      ensures out.History() == old(out.History()) + old(Queued(BoardOf(t), cfg)) && AllHeard(out)
    {
      FlushQueue(t, cfg, now);
      Leave(out, now);
    }

    // buffer_update: a full queue is flushed first; estimate is how many updates a new one is made for.
    method BufferUpdate(t: RouteTable, key: Key, estimate: nat, cfg: Sending, now: int)
      requires Valid() && t.Valid() && KeyOk(key) && estimate > 0
      modifies this, out, out.sendbuf, t`srcs
      ensures Valid() && t.Valid() && BoardOf(t) == old(BoardOf(t)) && SameSettings()
      ensures asked == old(asked) + [key]
      ensures var full := 0 < old(|queue|) == old(room);
              && queue == (if full then [] else old(queue)) + [key]
              && out.History() == old(out.History()) + if full then old(Queued(BoardOf(t), cfg)) else []
    {
      assert out.History() + [] == out.History();
      if |queue| > 0 && |queue| >= room {
        FlushQueue(t, cfg, now);
      }
      Enqueue(key, estimate);
    }

    method Enqueue(key: Key, estimate: nat)
      requires Valid() && KeyOk(key) && estimate > 0 && (|queue| == room ==> room == 0)
      modifies `queue, `room, `asked
      ensures Valid() && queue == old(queue) + [key] && asked == old(asked) + [key]
    {
      if room == 0 {
        room := estimate;
      }
      Associative(Concat(batches), queue, [key]);
      queue := queue + [key];
      asked := asked + [key];
    }

    // A message other than an update. When the buffer is too full for it, the queued updates and all
    // that was buffered leave first.
    method SendMessage(t: RouteTable, kind: u8, payload: Bytes, cfg: Sending, now: int)
      requires Valid() && t.Valid() && Wire.ItemOk(Wire.Other(kind, payload)) && |payload| + 2 <= out.sendbuf.Length
      modifies this, out, out.sendbuf, t`srcs
      ensures Valid() && t.Valid() && BoardOf(t) == old(BoardOf(t)) && SameSettings() && asked == old(asked)
      ensures var full := old(out.up && out.sendbuf.Length - out.buffered < |payload| + 2);
              && queue == (if full then [] else old(queue))
              && out.History() == old(out.History()) + (if full then old(Queued(BoardOf(t), cfg)) else [])
                                  + if old(out.up) then [Wire.Other(kind, payload)] else []
    {
      assert out.History() + [] == out.History();
      if !out.up {
        return;
      }
      MakeRoom(t, |payload| + 2, cfg, now);
      out.SendOther(kind, payload, now);
    }

    // A wildcard retraction, in the same way.
    method SendWildcardRetraction(t: RouteTable, seqno: u16, cfg: Sending, now: int)
      requires Valid() && t.Valid()
      modifies this, out, out.sendbuf, t`srcs
      ensures Valid() && t.Valid() && BoardOf(t) == old(BoardOf(t)) && SameSettings() && asked == old(asked)
      ensures var full := old(out.up && out.sendbuf.Length - out.buffered < 12);
              && queue == (if full then [] else old(queue))
              && out.History() == old(out.History()) + (if full then old(Queued(BoardOf(t), cfg)) else [])
                                  + if old(out.up) then [Wire.Wildcard(seqno)] else []
    {
      assert out.History() + [] == out.History();
      if !out.up {
        return;
      }
      MakeRoom(t, 12, cfg, now);
      out.SendWildcardRetraction(seqno, now);
    }

    method MakeRoom(t: RouteTable, space: nat, cfg: Sending, now: int)
      requires Valid() && t.Valid()
      modifies this, out, out.sendbuf, t`srcs
      ensures Valid() && t.Valid() && BoardOf(t) == old(BoardOf(t)) && SameSettings() && asked == old(asked)
      ensures space <= out.sendbuf.Length ==> out.sendbuf.Length - out.buffered >= space
      ensures var full := old(out.sendbuf.Length - out.buffered < space);
              && queue == (if full then [] else old(queue))
              && out.History() == old(out.History()) + if full then old(Queued(BoardOf(t), cfg)) else []
    {
      assert out.History() + [] == out.History();
      if out.sendbuf.Length - out.buffered < space {
        FlushBuf(t, cfg, now);
      }
    }
  }
}
