// The loops that write AS_PATH into a stream and read it back (qsrx/bgpd/bgp_aspath.c:688-782, 846-947).
module AsPathStream {
  import opened Util
  import opened AsPath
  import opened AsPathWire

  // A buffer written at endp and read at getp.
  class Stream {
    const data: array<u8>
    var endp: nat
    var getp: nat

    ghost predicate Valid()
      reads this
    {
      getp <= endp <= data.Length
    }

    ghost function Contents(): Bytes
      requires endp <= data.Length
      reads this, data
    {
      data[..endp]
    }

    ghost function Unread(): Bytes
      requires Valid()
      reads this, data
    {
      data[getp..endp]
    }

    constructor (size: nat)
      ensures Valid() && fresh(data) && data.Length == size && Contents() == [] && getp == 0
    {
      data := new u8[size](_ => 0);
      endp, getp := 0, 0;
    }

    method PutC(b: u8)
      requires Valid() && endp < data.Length
      modifies this`endp, data
      ensures Valid() && Contents() == old(Contents()) + [b]
    {
      data[endp] := b;
      endp := endp + 1;
      assert Contents() == old(Contents()) + [b];
    }

    method PutCAt(at: nat, b: u8)
      requires Valid() && at < endp
      modifies data
      ensures Contents() == old(Contents())[at := b]
    {
      data[at] := b;
    }

    // One AS number: stream_putl, or stream_putw of what a 16-bit speaker is told.
    method PutAsn(x: u32, wide: bool)
      requires Valid() && endp + Width(wide) <= data.Length
      modifies this`endp, data
      ensures Valid() && Contents() == old(Contents()) + AsnBytes(x, wide)
    {
      if wide {
        PutC(x / 0x100_0000);
        PutC(x / 0x1_0000 % 0x100);
        PutC(x / 0x100 % 0x100);
        PutC(x % 0x100);
      } else {
        var y := if x <= BGP_AS_MAX then x else AS_TRANS;
        PutC(y / 0x100);
        PutC(y % 0x100);
      }
    }

    method GetC() returns (b: u8)
      requires Valid() && getp < endp
      modifies this`getp
      ensures Valid() && getp == old(getp) + 1 && b == old(Unread())[0]
    {
      b := data[getp];
      getp := getp + 1;
    }

    method GetAsn(wide: bool) returns (x: u32)
      requires Valid() && getp + Width(wide) <= endp
      modifies this`getp
      ensures Valid() && getp == old(getp) + Width(wide) && x == AsnAt(old(Unread()), wide)
    {
      var b0 := GetC();
      var b1 := GetC();
      var high := Word(b0, b1);
      if wide {
        var b2 := GetC();
        var b3 := GetC();
        x := Word(Word(high, b2), b3);
      } else {
        x := high;
      }
    }
  }

  // ---- writing

  // assegment_data_put.
  method PutData(s: Stream, asns: seq<u32>, wide: bool)
    requires s.Valid() && s.endp + DataSize(|asns|, wide) <= s.data.Length
    modifies s`endp, s.data
    ensures s.Valid() && s.Contents() == old(s.Contents()) + Data(asns, wide)
  {
    for i := 0 to |asns|
      invariant s.Valid() && s.Contents() == old(s.Contents()) + Data(asns[..i], wide)
    {
      s.PutAsn(asns[i], wide);
      assert asns[..i + 1] == asns[..i] + [asns[i]];
      DataConcat(asns[..i], [asns[i]], wide);
      assert Data([asns[i]], wide) == AsnBytes(asns[i], wide) by {
        assert [asns[i]][1..] == [];
      }
      Associative(old(s.Contents()), Data(asns[..i], wide), AsnBytes(asns[i], wide));
    }
    assert asns[..|asns|] == asns;
  }

  // assegment_header_put: the place of the length is returned.
  method PutHeader(s: Stream, kind: Kind, length: u8) returns (lenp: nat)
    requires s.Valid() && s.endp + 2 <= s.data.Length
    modifies s`endp, s.data
    ensures s.Valid() && s.Contents() == old(s.Contents()) + [KindByte(kind), length] && lenp == old(s.endp) + 1
  {
    s.PutC(KindByte(kind));
    lenp := s.endp;
    s.PutC(length);
  }

  // One part of a segment.
  method PutPart(s: Stream, kind: Kind, asns: seq<u32>, wide: bool) returns (lenp: nat)
    requires s.Valid() && |asns| <= AS_SEGMENT_MAX && s.endp + SegmentSize(|asns|, wide) <= s.data.Length
    modifies s`endp, s.data
    ensures s.Valid() && s.Contents() == old(s.Contents()) + Part(kind, asns, wide) && lenp == old(s.endp) + 1
  {
    lenp := PutHeader(s, kind, |asns|);
    PutData(s, asns, wide);
    Associative(old(s.Contents()), [KindByte(kind), |asns|], Data(asns, wide));
  }

  // Overlength segments have to be split up.
  method PutSplit(s: Stream, seg: Segment, wide: bool) returns (written: nat, bytes: nat)
    requires s.Valid() && s.endp + |SplitBytes(seg.kind, seg.asns, 0, wide)| <= s.data.Length
    modifies s`endp, s.data
    ensures s.Valid() && s.Contents() == old(s.Contents()) + SplitBytes(seg.kind, seg.asns, 0, wide)
    ensures written == SplitAt(|seg.asns|, 0) && bytes == SplitCount(|seg.asns|, 0, wide)
  {
    written, bytes := 0, 0;
    while |seg.asns| - written > AS_SEGMENT_MAX
      invariant written <= |seg.asns| && s.Valid()
      invariant s.Contents() + SplitBytes(seg.kind, seg.asns, written, wide)
             == old(s.Contents()) + SplitBytes(seg.kind, seg.asns, 0, wide)
      invariant bytes + SplitCount(|seg.asns|, written, wide) == SplitCount(|seg.asns|, 0, wide)
      invariant SplitAt(|seg.asns|, written) == SplitAt(|seg.asns|, 0)
      decreases |seg.asns| - written
    {
      ghost var before := s.Contents();
      ghost var rest := SplitBytes(seg.kind, seg.asns, written + AS_SEGMENT_MAX, wide);
      assert |s.Contents() + SplitBytes(seg.kind, seg.asns, written, wide)| <= s.data.Length;
      var _ := PutPart(s, seg.kind, seg.asns[..AS_SEGMENT_MAX], wide);
      Associative(before, Part(seg.kind, seg.asns[..AS_SEGMENT_MAX], wide), rest);
      written := written + AS_SEGMENT_MAX;
      bytes := bytes + SegmentSize(written, wide);
    }
  }

  lemma SetLength(before: Bytes, kind: u8, l: u8, l': u8, tail: Bytes, more: Bytes)
    ensures (before + ([kind, l] + tail) + more)[|before| + 1 := l'] == before + ([kind, l'] + tail) + more
  {
  }

  lemma {:induction false} AllAsnsAppend(p: Path, seg: Segment)
    ensures AllAsns(p + [seg]) == AllAsns(p) + seg.asns
  {
    if p == [] {
      assert p + [seg] == [seg] && [seg][1..] == [];
    } else {
      assert (p + [seg])[1..] == p[1..] + [seg];
      AllAsnsAppend(p[1..], seg);
      Associative(p[0].asns, AllAsns(p[1..]), seg.asns);
    }
  }

  lemma {:induction false} AllAsnsConcat(p: Path, q: Path)
    ensures |AllAsns(p + q)| == |AllAsns(p)| + |AllAsns(q)|
  {
    if p == [] {
      assert p + q == q;
    } else {
      assert (p + q)[1..] == p[1..] + q;
      AllAsnsConcat(p[1..], q);
    }
  }

  lemma AllAsnsPrefix(p: Path, n: nat, m: nat)
    requires n < m <= |p|
    ensures |AllAsns(p[..n])| + |p[n].asns| <= |AllAsns(p[..m])|
  {
    assert p[..n + 1] == p[..n] + [p[n]];
    AllAsnsAppend(p[..n], p[n]);
    assert p[..m] == p[..n + 1] + p[n + 1..m];
    AllAsnsConcat(p[..n + 1], p[n + 1..m]);
  }

  lemma PackingStarts(b: Bytes, rest: Path, wide: bool)
    ensures rest[0..] == rest && AllAsns(rest[..0]) == [] && b + Data(AllAsns(rest[..0]), wide) == b
  {
  }

  // The next segment is one of those packed.
  lemma PackedStep(seg: Segment, rest: Path, n: nat)
    requires n < |rest| && seg.kind.AsSequence? && rest[n].kind.AsSequence?
    requires |seg.asns| + |rest[n].asns| <= AS_SEGMENT_MAX
    ensures Packed(seg, rest[n..]) == 1 + Packed(seg, rest[n + 1..])
  {
    assert rest[n..][1..] == rest[n + 1..];
  }

  // One turn of the packing loop.
  method PackNext(s: Stream, seg: Segment, rest: Path, n: nat, lenp: nat, written: nat, ghost before: Bytes,
                  ghost tail: Bytes, wide: bool)
    requires s.Valid() && lenp == |before| + 1 && written <= |seg.asns| && n < |rest|
    requires seg.kind.AsSequence? && rest[n].kind.AsSequence? && |seg.asns| + |rest[n].asns| <= AS_SEGMENT_MAX
    requires Packed(seg, rest) == n + Packed(seg, rest[n..]) && 0 <= LengthWith(seg, written, rest, n) < 0x100
    requires s.Contents() == before + ([KindByte(seg.kind), LengthWith(seg, written, rest, n)] + tail)
                             + Data(AllAsns(rest[..n]), wide)
    requires s.endp - DataSize(|AllAsns(rest[..n])|, wide) + DataSize(|AllAsns(rest[..Packed(seg, rest)])|, wide)
             <= s.data.Length
    modifies s`endp, s.data
    ensures s.Valid() && s.endp == old(s.endp) + DataSize(|rest[n].asns|, wide)
    ensures |AllAsns(rest[..n + 1])| == |AllAsns(rest[..n])| + |rest[n].asns|
    ensures Packed(seg, rest) == n + 1 + Packed(seg, rest[n + 1..])
    ensures s.Contents() == before + ([KindByte(seg.kind), LengthWith(seg, written, rest, n + 1)] + tail)
                            + Data(AllAsns(rest[..n + 1]), wide)
  {
    PackedStep(seg, rest, n);
    AllAsnsPrefix(rest, n, Packed(seg, rest));
    PackOne(s, seg, rest, n, lenp, written, before, tail, wide);
  }

  // Sequence segments are packed together. The part they are packed into is tail, behind before.
  method PutPacked(s: Stream, seg: Segment, rest: Path, lenp: nat, written: nat, ghost before: Bytes, ghost tail: Bytes,
                   wide: bool) returns (next: nat, packed: nat)
    requires s.Valid() && lenp == |before| + 1 && written == SplitAt(|seg.asns|, 0)
    requires s.Contents() == before + ([KindByte(seg.kind), |seg.asns| - written] + tail)
    requires s.endp + DataSize(|AllAsns(rest[..Packed(seg, rest)])|, wide) <= s.data.Length
    modifies s`endp, s.data
    ensures s.Valid() && next == Packed(seg, rest) && packed == |AllAsns(rest[..next])|
    ensures s.Contents()
         == before + ([KindByte(seg.kind), LastLength(seg, rest)] + tail) + Data(AllAsns(rest[..next]), wide)
  {
    next, packed := 0, 0;
    ghost var kind := KindByte(seg.kind);
    ghost var start := s.endp;
    PackingStarts(before + ([kind, |seg.asns| - written] + tail), rest, wide);
    while next < |rest| && seg.kind.AsSequence? && rest[next].kind.AsSequence?
          && |seg.asns| + |rest[next].asns| <= AS_SEGMENT_MAX
      invariant next <= |rest| && s.Valid() && packed == |AllAsns(rest[..next])|
      invariant Packed(seg, rest) == next + Packed(seg, rest[next..])
      invariant 0 <= LengthWith(seg, written, rest, next) < 0x100 && s.endp == start + DataSize(packed, wide)
      invariant s.Contents() == before + ([kind, LengthWith(seg, written, rest, next)] + tail)
                                + Data(AllAsns(rest[..next]), wide)
    {
      PackNext(s, seg, rest, next, lenp, written, before, tail, wide);
      packed := packed + |rest[next].asns|;
      next := next + 1;
    }
  }

  // The next segment's data, and the new length in the header.
  method PackOne(s: Stream, seg: Segment, rest: Path, n: nat, lenp: nat, written: nat, ghost before: Bytes,
                 ghost tail: Bytes, wide: bool)
    requires s.Valid() && lenp == |before| + 1 && written <= |seg.asns| && n < |rest|
    requires |seg.asns| + |rest[n].asns| <= AS_SEGMENT_MAX && 0 <= LengthWith(seg, written, rest, n) < 0x100
    requires s.Contents() == before + ([KindByte(seg.kind), LengthWith(seg, written, rest, n)] + tail)
                             + Data(AllAsns(rest[..n]), wide)
    requires s.endp + DataSize(|rest[n].asns|, wide) <= s.data.Length
    modifies s`endp, s.data
    ensures s.Valid() && s.endp == old(s.endp) + DataSize(|rest[n].asns|, wide)
    ensures |AllAsns(rest[..n + 1])| == |AllAsns(rest[..n])| + |rest[n].asns|
    ensures s.Contents() == before + ([KindByte(seg.kind), LengthWith(seg, written, rest, n + 1)] + tail)
                            + Data(AllAsns(rest[..n + 1]), wide)
  {
    ghost var head := before + ([KindByte(seg.kind), LengthWith(seg, written, rest, n)] + tail);
    PutData(s, rest[n].asns, wide);
    assert rest[..n + 1] == rest[..n] + [rest[n]];
    AllAsnsAppend(rest[..n], rest[n]);
    DataConcat(AllAsns(rest[..n]), rest[n].asns, wide);
    Associative(head, Data(AllAsns(rest[..n]), wide), Data(rest[n].asns, wide));
    s.PutCAt(lenp, |seg.asns| - written + |rest[n].asns|);
    SetLength(before, KindByte(seg.kind), LengthWith(seg, written, rest, n), LengthWith(seg, written, rest, n + 1),
              tail, Data(AllAsns(rest[..n + 1]), wide));
  }

  // One turn of aspath_put.
  method PutSegment(s: Stream, seg: Segment, rest: Path, wide: bool) returns (next: nat, bytes: nat)
    requires s.Valid() && s.endp + |SegmentBytes(seg, rest, wide)| <= s.data.Length
    modifies s`endp, s.data
    ensures s.Valid() && s.Contents() == old(s.Contents()) + SegmentBytes(seg, rest, wide)
    ensures next == Packed(seg, rest) && bytes == SegmentCount(seg, rest, wide)
  {
    var written, packed;
    ghost var split := SplitBytes(seg.kind, seg.asns, 0, wide);
    written, bytes := PutSplit(s, seg, wide);
    ghost var before := s.Contents();
    var lenp := PutPart(s, seg.kind, seg.asns[written..], wide);
    ghost var tail := Data(seg.asns[written..], wide);
    next, packed := PutPacked(s, seg, rest, lenp, written, before, tail, wide);
    bytes := bytes + SegmentSize(|seg.asns| - written + packed, wide);
    ghost var last := [KindByte(seg.kind), LastLength(seg, rest)] + tail;
    Associative(old(s.Contents()), split, last);
    Associative(old(s.Contents()), split + last, Data(AllAsns(rest[..next]), wide));
  }

  // The check for room in aspath_put passes whenever there is room for what will be written.
  lemma SegmentFits(seg: Segment, rest: Path, wide: bool)
    ensures SegmentSize(|seg.asns|, wide) <= |SegmentBytes(seg, rest, wide)|
  {
    SplitFits(seg.kind, seg.asns, 0, wide);
  }

  lemma {:induction false} SplitFits(kind: Kind, asns: seq<u32>, written: nat, wide: bool)
    requires written <= |asns|
    ensures DataSize(SplitAt(|asns|, written) - written, wide) <= |SplitBytes(kind, asns, written, wide)|
    decreases |asns| - written
  {
    if |asns| - written <= AS_SEGMENT_MAX {
    } else {
      SplitFits(kind, asns, written + AS_SEGMENT_MAX, wide);
    }
  }

  // What is written into so much room: everything up to the first chunk that does not fit by its size.
  // None when a chunk that should fit is larger, by splitting or packing: the stream does not survive that.
  function Within(cs: seq<Chunk>, room: nat): Option<(Bytes, nat)> {
    if cs == [] || cs[0].size > room then Some(([], 0))
    else if |cs[0].bytes| > room then None
    else match Within(cs[1..], room - |cs[0].bytes|)
      case None => None
      case Some((more, count)) => Some((cs[0].bytes + more, cs[0].count + count))
  }

  // aspath_put with so much room left in the stream.
  function PutBounded(p: Path, room: nat, wide: bool): Option<(Bytes, nat)> {
    if p == [] || p[0].asns == [] then Some(([], 0)) else Within(Chunks(p, wide), room)
  }

  lemma HeadChunk(p: Path, wide: bool, cs: seq<Chunk>)
    requires p != [] && cs == Chunks(p, wide)
    ensures cs != [] && cs[0] == ChunkOf(p[0], p[1..], wide) && cs[1..] == Chunks(AfterPacked(p[0], p[1..]), wide)
  {
  }

  lemma {:induction false} ChunksFit(p: Path, wide: bool)
    ensures forall c :: c in Chunks(p, wide) ==> c.size <= |c.bytes|
    decreases |p|
  {
    if p == [] {
    } else {
      SegmentFits(p[0], p[1..], wide);
      ChunksFit(AfterPacked(p[0], p[1..]), wide);
    }
  }

  lemma {:induction false} AllWithin(cs: seq<Chunk>, room: nat)
    requires |Joined(cs).0| <= room && forall c :: c in cs ==> c.size <= |c.bytes|
    ensures Within(cs, room) == Some(Joined(cs))
  {
    if cs == [] {
    } else {
      assert cs[0] in cs;
      AllWithin(cs[1..], room - |cs[0].bytes|);
    }
  }

  // With room for all of it, the path is written whole.
  lemma PutWhole(p: Path, room: nat, wide: bool)
    requires |Put(p, wide).0| <= room
    ensures PutBounded(p, room, wide) == Some(Put(p, wide))
  {
    ChunksFit(p, wide);
    if p != [] && p[0].asns != [] {
      AllWithin(Chunks(p, wide), room);
    }
  }

  lemma {:induction false} CutChunks(cs: seq<Chunk>, room: nat) returns (n: nat)
    requires forall c :: c in cs ==> c.size == |c.bytes|
    ensures n <= |cs| && Within(cs, room) == Some(Joined(cs[..n])) && |Joined(cs[..n]).0| <= room
    ensures n < |cs| ==> cs[n].size > room - |Joined(cs[..n]).0|
  {
    if cs == [] || cs[0].size > room {
      n := 0;
    } else {
      assert cs[0] in cs;
      var m := CutChunks(cs[1..], room - |cs[0].bytes|);
      n := m + 1;
      assert cs[..n][1..] == cs[1..][..m];
    }
  }

  // A segment that needs neither splitting nor packing takes just the room it is checked for, and what
  // follows does not matter.
  lemma PlainChunk(seg: Segment, rest: Path, wide: bool)
    requires |seg.asns| <= AS_SEGMENT_MAX && Packed(seg, rest) == 0
    ensures ChunkOf(seg, rest, wide) == ChunkOf(seg, [], wide)
    ensures ChunkOf(seg, rest, wide).size == |ChunkOf(seg, rest, wide).bytes|
  {
    var none: Path := [];
    assert rest[..0] == none[..0] == [] && seg.asns[0..] == seg.asns;
  }

  ghost predicate Plain(p: Path) {
    Normal(p) && NonEmpty(p) && AtMost(p, AS_SEGMENT_MAX)
  }

  lemma PlainLeft(p: Path)
    requires Plain(p) && p != []
    ensures Packed(p[0], p[1..]) == 0 && AfterPacked(p[0], p[1..]) == p[1..] && Plain(p[1..])
  {
    NothingPacked(p);
  }

  lemma {:induction false} PlainChunks(p: Path, wide: bool)
    requires Plain(p)
    ensures |Chunks(p, wide)| == |p|
    ensures forall i :: 0 <= i < |p| ==> Chunks(p, wide)[i] == ChunkOf(p[i], [], wide)
    ensures forall c :: c in Chunks(p, wide) ==> c.size == |c.bytes|
  {
    if p == [] {
    } else {
      PlainLeft(p);
      PlainChunk(p[0], p[1..], wide);
      PlainChunks(p[1..], wide);
    }
  }

  // A normalised path without overlong segments never breaks the stream: it is cut in front of the first
  // segment that does not fit, and the segments in front of the cut are written as a path of their own.
  lemma CutInFront(p: Path, room: nat, wide: bool) returns (n: nat)
    requires Plain(p)
    ensures n <= |p| && PutBounded(p, room, wide) == Some(Put(p[..n], wide)) && |Put(p[..n], wide).0| <= room
    ensures n < |p| ==> SegmentSize(|p[n].asns|, wide) > room - |Put(p[..n], wide).0|
  {
    PlainChunks(p, wide);
    n := CutChunks(Chunks(p, wide), room);
    PlainCut(p, n, wide);
  }

  lemma PlainCut(p: Path, n: nat, wide: bool)
    requires Plain(p) && n <= |p|
    ensures Plain(p[..n]) && |Chunks(p, wide)| == |p|
    ensures Chunks(p[..n], wide) == Chunks(p, wide)[..n]
    ensures n < |p| ==> Chunks(p, wide)[n] == ChunkOf(p[n], [], wide)
  {
    PlainChunks(p, wide);
    PlainChunks(p[..n], wide);
    SameChunks(Chunks(p[..n], wide), Chunks(p, wide), p, n, wide);
  }

  lemma SameChunks(cs: seq<Chunk>, ds: seq<Chunk>, p: Path, n: nat, wide: bool)
    requires |cs| == n <= |p| == |ds|
    requires forall i :: 0 <= i < n ==> cs[i] == ChunkOf(p[i], [], wide)
    requires forall i :: 0 <= i < |p| ==> ds[i] == ChunkOf(p[i], [], wide)
    ensures cs == ds[..n]
  {
    assert forall i :: 0 <= i < n ==> cs[i] == ds[i];
  }

  // The turn for the head of the list.
  method PutNext(s: Stream, p: Path, wide: bool, ghost c: Chunk) returns (left: Path, bytes: nat)
    requires p != [] && s.Valid() && c == ChunkOf(p[0], p[1..], wide) && |c.bytes| <= s.data.Length - s.endp
    modifies s`endp, s.data
    ensures s.Valid() && left == AfterPacked(p[0], p[1..]) && bytes == c.count
    ensures s.Contents() == old(s.Contents()) + c.bytes
  {
    var packed;
    packed, bytes := PutSegment(s, p[0], p[1..], wide);
    left := p[1..][packed..];
    AfterPackedIs(p[0], p[1..]);
  }

  // So much of all has been written and counted that cs remains.
  ghost predicate Going(s: Stream, cs: seq<Chunk>, start: Bytes, bytes: nat, all: (Bytes, nat))
    reads s, s.data
  {
    s.Valid()
    && match Within(cs, s.data.Length - s.endp)
       case None => false
       case Some((more, count)) => s.Contents() + more == start + all.0 && bytes + count == all.1
  }

  lemma GoingOn(before: Bytes, cs: seq<Chunk>, room: nat, start: Bytes, bytes: nat, all: (Bytes, nat))
    requires cs != [] && cs[0].size <= room && Within(cs, room).Some?
    requires before + Within(cs, room).value.0 == start + all.0 && bytes + Within(cs, room).value.1 == all.1
    ensures |cs[0].bytes| <= room && Within(cs[1..], room - |cs[0].bytes|).Some?
    ensures var (more, count) := Within(cs[1..], room - |cs[0].bytes|).value;
            (before + cs[0].bytes) + more == start + all.0 && bytes + cs[0].count + count == all.1
  {
    Associative(before, cs[0].bytes, Within(cs[1..], room - |cs[0].bytes|).value.0);
  }

  // One turn of the loop.
  method PutTurn(s: Stream, p: Path, bytes: nat, wide: bool, ghost cs: seq<Chunk>, ghost start: Bytes,
                 ghost all: (Bytes, nat)) returns (left: Path, bytes': nat)
    requires p != [] && cs != [] && cs[0] == ChunkOf(p[0], p[1..], wide) && Going(s, cs, start, bytes, all)
    requires SegmentSize(|p[0].asns|, wide) <= s.data.Length - s.endp
    modifies s`endp, s.data
    ensures left == AfterPacked(p[0], p[1..]) && Going(s, cs[1..], start, bytes', all)
  {
    GoingOn(s.Contents(), cs, s.data.Length - s.endp, start, bytes, all);
    var count;
    left, count := PutNext(s, p, wide, cs[0]);
    bytes' := bytes + count;
  }

  // Where the loop stops, all is written.
  lemma Gone(s: Stream, p: Path, wide: bool, start: Bytes, bytes: nat, all: (Bytes, nat))
    requires Going(s, Chunks(p, wide), start, bytes, all)
    requires p == [] || SegmentSize(|p[0].asns|, wide) > s.data.Length - s.endp
    ensures s.Contents() == start + all.0 && bytes == all.1
  {
    assert s.Contents() + [] == s.Contents();
  }

  // aspath_put, whatever room the stream has, unless it breaks.
  method AspathPut(s: Stream, p: Path, wide: bool) returns (bytes: nat)
    requires s.Valid() && PutBounded(p, s.data.Length - s.endp, wide).Some?
    modifies s`endp, s.data
    ensures s.Valid()
    ensures var (written, count) := PutBounded(p, old(s.data.Length - s.endp), wide).value;
            s.Contents() == old(s.Contents()) + written && bytes == count
  {
    bytes := 0;
    assert s.Contents() + [] == s.Contents();
    if |p| == 0 || |p[0].asns| == 0 {
      return;
    }
    bytes := PutLoop(s, p, wide, PutBounded(p, s.data.Length - s.endp, wide).value);
  }

  method PutLoop(s: Stream, p: Path, wide: bool, ghost all: (Bytes, nat)) returns (bytes: nat)
    requires s.Valid() && Within(Chunks(p, wide), s.data.Length - s.endp) == Some(all)
    modifies s`endp, s.data
    ensures s.Valid() && s.Contents() == old(s.Contents()) + all.0 && bytes == all.1
  {
    bytes := 0;
    var segs := p;
    ghost var start := s.Contents();
    ghost var cs := Chunks(p, wide);
    while segs != [] && SegmentSize(|segs[0].asns|, wide) <= s.data.Length - s.endp
      invariant cs == Chunks(segs, wide) && Going(s, cs, start, bytes, all)
      decreases |segs|
    {
      HeadChunk(segs, wide, cs);
      segs, bytes := PutTurn(s, segs, bytes, wide, cs, start, all);
      cs := cs[1..];
    }
    Gone(s, segs, wide, start, bytes, all);
  }

  // ---- reading

  function Prepended(head: Path, parsed: Option<Path>): Option<Path> {
    match parsed
    case None => None
    case Some(rest) => Some(head + rest)
  }

  lemma DecodedStep(b: Bytes, n: nat, wide: bool, rest: Bytes, x: u32)
    requires 0 < n && DataSize(n, wide) <= |b| && rest == b[Width(wide)..] && x == AsnAt(b, wide)
    ensures Decoded(b, n, wide) == [x] + Decoded(rest, n - 1, wide)
  {
  }

  // One number more of those left.
  method GetNext(s: Stream, asns: seq<u32>, left: nat, wide: bool) returns (more: seq<u32>)
    requires s.Valid() && left > 0 && s.getp + DataSize(left, wide) <= s.endp
    modifies s`getp
    ensures s.Valid() && s.getp == old(s.getp) + Width(wide) && |s.Unread()| >= DataSize(left - 1, wide)
    ensures more + Decoded(s.Unread(), left - 1, wide) == asns + Decoded(old(s.Unread()), left, wide)
  {
    var x := s.GetAsn(wide);
    DecodedStep(old(s.Unread()), left, wide, s.Unread(), x);
    Associative(asns, [x], Decoded(s.Unread(), left - 1, wide));
    more := asns + [x];
  }

  method GetData(s: Stream, n: nat, wide: bool) returns (asns: seq<u32>)
    requires s.Valid() && s.getp + DataSize(n, wide) <= s.endp
    modifies s`getp
    ensures s.Valid() && s.getp == old(s.getp) + DataSize(n, wide) && asns == Decoded(old(s.Unread()), n, wide)
  {
    asns := [];
    ghost var all := s.Unread();
    for i := 0 to n
      invariant s.Valid() && s.getp == old(s.getp) + DataSize(i, wide)
      invariant asns + Decoded(s.Unread(), n - i, wide) == Decoded(all, n, wide)
    {
      asns := GetNext(s, asns, n - i, wide);
    }
  }

  // One turn of assegments_parse, with so many bytes of the attribute left.
  method ParsePart(s: Stream, left: nat, ghost b: Bytes, wide: bool) returns (part: Option<Segment>, size: nat)
    requires s.Valid() && 0 < left <= |s.Unread()| && b == s.Unread()[..left]
    modifies s`getp
    ensures s.Valid()
    ensures match part
            case None => ParseSegments(b, wide) == None
            case Some(seg) => && 0 < size <= left && s.getp == old(s.getp) + size
                              && ParseSegments(b, wide) == Prepended([seg], ParseSegments(b[size..], wide))
  {
    if left <= 2 {
      return None, 0;
    }
    var kind := s.GetC();
    var n := s.GetC();
    assert kind == b[0] && n == b[1];
    size := SegmentSize(n, wide);
    if size > left || n == 0 || KindOf(kind).None? {
      return None, 0;
    }
    ghost var data := s.Unread();
    var asns := GetData(s, n, wide);
    assert data[..|b[2..]|] == b[2..];
    DecodedPrefix(data, b[2..], n, wide);
    part := Some(Segment(KindOf(kind).value, asns));
  }

  lemma PrependedTwice(head: Path, part: Path, parsed: Option<Path>)
    ensures Prepended(head, Prepended(part, parsed)) == Prepended(head + part, parsed)
    ensures Prepended([], parsed) == parsed
  {
    if parsed.Some? {
      assert [] + parsed.value == parsed.value;
      Associative(head, part, parsed.value);
    }
  }

  lemma PrependedEnd(head: Path, wide: bool)
    ensures Prepended(head, ParseSegments([], wide)) == Some(head)
  {
    assert head + [] == head;
  }

  // One turn, seen from the whole attribute: head is what was parsed of all before position bytes.
  method ParseTurn(s: Stream, ghost all: Bytes, bytes: nat, length: nat, ghost head: Path, wide: bool)
    returns (part: Option<Segment>, next: nat)
    requires s.Valid() && |all| == length && bytes < length <= bytes + |s.Unread()|
    requires all[bytes..] == s.Unread()[..length - bytes]
    modifies s`getp
    ensures s.Valid()
    ensures part.None? ==> Prepended(head, ParseSegments(all[bytes..], wide)) == None
    ensures part.Some? ==> && bytes < next <= length && s.getp == old(s.getp) + (next - bytes)
                           && Prepended(head, ParseSegments(all[bytes..], wide))
                              == Prepended(head + [part.value], ParseSegments(all[next..], wide))
  {
    ghost var b := all[bytes..];
    var size;
    part, size := ParsePart(s, length - bytes, b, wide);
    next := bytes + size;
    if part.Some? {
      assert b[size..] == all[next..];
      PrependedTwice(head, [part.value], ParseSegments(b[size..], wide));
    }
  }

  lemma StillUnread(data: Bytes, getp: nat, endp: nat, length: nat, bytes: nat)
    requires getp + length <= endp <= |data| && bytes <= length
    ensures data[getp..endp][..length][bytes..] == data[getp + bytes..endp][..length - bytes]
  {
  }

  // The loop of assegments_parse over the segments of an attribute.
  method ParseParts(s: Stream, length: nat, wide: bool) returns (r: Option<Path>)
    requires s.Valid() && length <= |s.Unread()|
    modifies s`getp
    ensures s.Valid() && r == ParseSegments(old(s.Unread())[..length], wide)
    ensures r.Some? ==> s.getp == old(s.getp) + length
  {
    ghost var data := s.data[..];
    ghost var all := data[s.getp..s.endp][..length];
    assert all == s.Unread()[..length];
    var bytes, head: Path := 0, [];
    assert all[0..] == all;
    PrependedTwice([], [], ParseSegments(all, wide));
    while bytes < length
      invariant bytes <= length && s.Valid() && s.getp == old(s.getp) + bytes
      invariant Prepended(head, ParseSegments(all[bytes..], wide)) == ParseSegments(all, wide)
    {
      StillUnread(data, old(s.getp), s.endp, length, bytes);
      var part, next := ParseTurn(s, all, bytes, length, head, wide);
      if part.None? {
        return None;
      }
      head := head + [part.value];
      bytes := next;
    }
    assert all[bytes..] == [];
    PrependedEnd(head, wide);
    return Some(head);
  }

  // assegments_parse of length bytes.
  method ParseStream(s: Stream, length: nat, wide: bool) returns (r: Option<Path>)
    requires s.Valid()
    modifies s`getp
    ensures s.Valid()
    ensures r == if length == 0 then Some([])
                 else if old(|s.Unread()|) < length then None
                 else Parse(old(s.Unread())[..length], wide)
    ensures r.Some? ==> s.getp == old(s.getp) + length
  {
    if length == 0 {
      return Some([]);
    }
    if s.endp - s.getp < length || s.endp - s.getp < 2 || length % 2 != 0 {
      return None;
    }
    r := ParseParts(s, length, wide);
    if r.Some? {
      var p := NormaliseSegments(r.value);
      r := Some(p);
    }
  }

  // Reading n numbers looks no further than their bytes.
  lemma {:induction false} DecodedPrefix(b: Bytes, c: Bytes, n: nat, wide: bool)
    requires DataSize(n, wide) <= |c| <= |b| && b[..|c|] == c
    ensures Decoded(b, n, wide) == Decoded(c, n, wide)
  {
    if n == 0 {
    } else {
      assert forall i :: 0 <= i < Width(wide) ==> b[i] == b[..|c|][i];
      assert b[Width(wide)..][..|c[Width(wide)..]|] == c[Width(wide)..];
      DecodedPrefix(b[Width(wide)..], c[Width(wide)..], n - 1, wide);
    }
  }
}
